/** Counting the distinct cells of a graph and their bits. */
module StorageStats {
  import opened Cells
  import opened CellHash
  import opened CellGraph

  /** Total number of data bits in a set of cells. */
  ghost function BitSum(s: set<Cell>): nat {
    if s == {} then 0
    else
      var x :| x in s;
      |x.bits| + BitSum(s - {x})
  }

  lemma {:induction false} BitSumAdd(s: set<Cell>, y: Cell)
    requires y !in s
    ensures BitSum(s + {y}) == BitSum(s) + |y.bits|
    decreases |s|
  {
    var t := s + {y};
    var x :| x in t && BitSum(t) == |x.bits| + BitSum(t - {x});
    if x == y {
      assert t - {x} == s;
    } else {
      assert t - {x} == (s - {x}) + {y};
      BitSumAdd(s - {x}, y);
      BitSumAdd(s - {x}, x);
      assert (s - {x}) + {x} == s;
    }
  }

  lemma {:induction false} SubsetSize(s: set<Cell>, t: set<Cell>)
    requires s <= t
    ensures |s| <= |t| && (|s| == |t| ==> s == t)
  {
    if s != {} {
      var x :| x in s;
      SubsetSize(s - {x}, t - {x});
      assert s == (s - {x}) + {x} && t == (t - {x}) + {x};
    }
  }

  // ---------------------------------------------------------------- distinct cells

  function Erased(cells: seq<Cell>): (s: seq<Cell>)
    ensures |s| == |cells|
  {
    seq(|cells|, i requires 0 <= i < |cells| => Erase(cells[i]))
  }

  /** The distinct cells at and below some cells: storage flags do not tell cells apart. */
  ghost function Distinct(cells: seq<Cell>): set<Cell> { ReachAll(Erased(cells)) }

  /** Cells without flags, closed under references, that their hashes tell apart. */
  ghost predicate HashesTell(sha: Sha, u: set<Cell>) {
    && Closed(u)
    && (forall x, y :: x in u && y in u && ReprHash(sha, x) == ReprHash(sha, y) ==> x == y)
  }

  ghost function Children(s: set<Cell>): set<Cell> { set x, i | x in s && 0 <= i < |x.refs| :: x.refs[i] }

  /** The cells an iterator still has. */
  ghost function LeftIn(it: RefsIter): set<Cell>
    requires it.Ok()
  {
    set k | it.next <= k < it.max :: Erase(it.cell.refs[k])
  }

  lemma {:induction false} ClosedChildren(s: set<Cell>)
    ensures Closed(s) <==> Children(s) <= s
  {
    if Children(s) <= s {
      forall x, i | x in s && 0 <= i < |x.refs|
        ensures x.refs[i] in s
      {
        assert x.refs[i] in Children(s);
      }
    }
  }

  /** What is below an iterator is the least closed set that holds what it still has. */
  lemma {:induction false} DistinctLeast(it: RefsIter, s: set<Cell>)
    requires it.Ok()
    ensures Closed(Distinct(it.Left())) && LeftIn(it) <= Distinct(it.Left())
    ensures Closed(s) && LeftIn(it) <= s ==> Distinct(it.Left()) <= s
  {
    hide ReachAll, Erase;
    var cells := Erased(it.Left());
    ReachAllClosed(cells);
    forall i | 0 <= i < |cells|
      ensures cells[i] in LeftIn(it)
    {
      assert cells[i] == Erase(it.cell.refs[it.next + i]);
    }
    forall y | y in LeftIn(it)
      ensures y in Distinct(it.Left())
    {
      var k :| it.next <= k < it.max && y == Erase(it.cell.refs[k]);
      assert cells[k - it.next] == y;
    }
    if Closed(s) && LeftIn(it) <= s { ReachAllLeast(cells, s); }
  }

  lemma {:induction false} ReachErased(c: Cell)
    ensures Reach(Erase(c)) == {Erase(c)} + Distinct(References(c).Left())
    ensures LeftIn(References(c)) == Children({Erase(c)})
  {
    hide Reach, ReachAll;
    var e, left := Erase(c), References(c);
    forall y
      ensures y in LeftIn(left) <==> y in Children({e})
    {
      if y in LeftIn(left) {
        var k :| 0 <= k < |c.refs| && y == Erase(c.refs[k]);
        assert e.refs[k] == y;
      }
      if y in Children({e}) {
        var k :| 0 <= k < |e.refs| && y == e.refs[k];
        assert Erase(left.cell.refs[k]) == y;
      }
    }
    ReachClosed(e);
    ClosedChildren(Reach(e));
    assert Children({e}) <= Children(Reach(e));
    DistinctLeast(left, Reach(e));
    var all := {e} + Distinct(left.Left());
    ClosedChildren(Distinct(left.Left()));
    ClosedChildren(all);
    assert Children(all) <= Children({e}) + Children(Distinct(left.Left()));
    ReachLeast(e, all);
  }

  ghost function Images(s: set<Cell>): set<Cell> { set x | x in s :: Erase(x) }

  /** Erasing flags and following references commute. */
  lemma {:induction false} DistinctImages(cells: seq<Cell>)
    ensures Distinct(cells) <= Images(ReachAll(cells))
  {
    hide ReachAll, Erase;
    var all := ReachAll(cells);
    ReachAllClosed(cells);
    forall y, i | y in Images(all) && 0 <= i < |y.refs|
      ensures y.refs[i] in Images(all)
    {
      var x :| x in all && y == Erase(x);
      ErasedRefs(x);
      assert y.refs[i] == Erase(x.refs[i]);
    }
    ReachAllLeast(Erased(cells), Images(all));
  }

  lemma {:induction false} ErasedRefs(c: Cell)
    ensures |Erase(c).refs| == |c.refs| && forall i :: 0 <= i < |c.refs| ==> Erase(c).refs[i] == Erase(c.refs[i])
  {
  }

  /** Trees whose hashes do not collide make up a universe. */
  lemma {:induction false} DistinctUniverse(sha: Sha, cells: seq<Cell>)
    requires CollisionFree(sha, ReachAll(cells))
    ensures HashesTell(sha, Distinct(cells))
  {
    hide ReachAll, Erase, ReprHash;
    ReachAllClosed(Erased(cells));
    DistinctImages(cells);
    forall y, y' | y in Distinct(cells) && y' in Distinct(cells) && ReprHash(sha, y) == ReprHash(sha, y')
      ensures y == y'
    {
      var x :| x in ReachAll(cells) && y == Erase(x);
      var x' :| x' in ReachAll(cells) && y' == Erase(x');
      SameHash(sha, x);
      SameHash(sha, x');
    }
  }

  // ---------------------------------------------------------------- work left on the stack

  /** The cell was counted, or some iterator still has it. */
  ghost predicate CoveredAt(counted: set<Cell>, stack: seq<RefsIter>, y: Cell)
    requires AllOk(stack)
  {
    y in counted || exists j :: 0 <= j < |stack| && y in LeftIn(stack[j])
  }

  ghost predicate Covered(wanted: set<Cell>, counted: set<Cell>, stack: seq<RefsIter>)
    requires AllOk(stack)
  {
    forall y :: y in wanted ==> CoveredAt(counted, stack, y)
  }

  /** All that the iterators will lead to is in `target`. */
  ghost predicate StackLeads(stack: seq<RefsIter>, target: set<Cell>)
    requires AllOk(stack)
  {
    forall j :: 0 <= j < |stack| ==> LeftIn(stack[j]) <= target
  }

  lemma {:induction false} LeftInNext(it: RefsIter)
    requires it.Ok()
    ensures it.next == it.max ==> LeftIn(it) == {}
    ensures it.next < it.max ==> LeftIn(it) == {Erase(it.cell.refs[it.next])} + LeftIn(it.(next := it.next + 1))
  {
    hide Erase;
    if it.next < it.max {
      assert Erase(it.cell.refs[it.next]) in LeftIn(it);
    }
  }

  /** Replacing the top of the stack covers all that was covered, if the new parts hold what the old top had. */
  lemma {:induction false} CoveredMoves(wanted: set<Cell>, counted: set<Cell>, more: set<Cell>,
                                        below: seq<RefsIter>, top: RefsIter, tops: seq<RefsIter>)
    requires AllOk(below) && top.Ok() && AllOk(tops) && counted <= more
    requires Covered(wanted, counted, below + [top])
    requires forall y :: y in LeftIn(top) ==> CoveredAt(more, tops, y)
    ensures Covered(wanted, more, below + tops)
  {
    hide LeftIn;
    var stack, moved := below + [top], below + tops;
    forall y | y in wanted && y !in more
      ensures CoveredAt(more, moved, y)
    {
      assert CoveredAt(counted, stack, y);
      var j :| 0 <= j < |stack| && y in LeftIn(stack[j]);
      if j < |below| {
        assert moved[j] == stack[j];
      } else {
        assert CoveredAt(more, tops, y);
        var k :| 0 <= k < |tops| && y in LeftIn(tops[k]);
        assert moved[|below| + k] == tops[k];
      }
    }
  }

  lemma {:induction false} LeadsMoves(target: set<Cell>, below: seq<RefsIter>, top: RefsIter, tops: seq<RefsIter>)
    requires AllOk(below) && top.Ok() && AllOk(tops) && StackLeads(below + [top], target)
    requires forall k :: 0 <= k < |tops| ==> LeftIn(tops[k]) <= target
    ensures StackLeads(below + tops, target) && LeftIn(top) <= target
  {
    hide LeftIn;
    var stack, moved := below + [top], below + tops;
    assert stack[|below|] == top;
    forall j | 0 <= j < |moved|
      ensures LeftIn(moved[j]) <= target
    {
      if j < |below| { assert moved[j] == stack[j]; } else { assert moved[j] == tops[j - |below|]; }
    }
  }

  // ---------------------------------------------------------------- the counter

  class StorageStat {
    var visited: set<Digest>
    var stack: seq<RefsIter>
    var bitCount: nat
    var cellCount: nat
    const limit: nat
    /** The distinct cells counted so far, and the bits of the slices, which count each time. */
    ghost var counted: set<Cell>
    ghost var sliceBits: nat

    /** Counters and visited hashes are those of the counted cells. */
    ghost predicate Counts(sha: Sha, u: set<Cell>)
      reads this`visited, this`counted, this`cellCount, this`bitCount, this`sliceBits
    {
      && counted <= u
      && (forall x :: x in u ==> (ReprHash(sha, x) in visited <==> x in counted))
      && cellCount == |counted| && bitCount == BitSum(counted) + sliceBits
    }

    /** Between calls that returned true everything below a counted cell was counted. */
    ghost predicate Complete(sha: Sha, u: set<Cell>)
      reads this
    {
      HashesTell(sha, u) && Counts(sha, u) && Closed(counted)
    }

    /** While the stack is worked through. */
    ghost predicate Busy(sha: Sha, u: set<Cell>, wanted: set<Cell>, base: set<Cell>, target: set<Cell>, most: nat)
      reads this
    {
      && AllOk(stack) && Counts(sha, u) && StackLeads(stack, target)
      && base <= counted <= target && Covered(wanted + Children(counted), counted, stack)
      && cellCount <= most
    }

    constructor (limit: nat, ghost sha: Sha, ghost u: set<Cell>)
      requires HashesTell(sha, u)
      ensures Complete(sha, u) && counted == {} && sliceBits == 0 && this.limit == limit
    {
      this.limit := limit;
      visited, stack, bitCount, cellCount, counted, sliceBits := {}, [], 0, 0, {}, 0;
    }

    /** Counts a cell whose hash was not visited before. */
    method CountCell(sha: Sha, cell: Cell, ghost u: set<Cell>)
      requires HashesTell(sha, u) && Counts(sha, u) && Erase(cell) in u && Erase(cell) !in counted
      modifies this`visited, this`bitCount, this`cellCount, this`counted
      ensures Counts(sha, u) && counted == old(counted) + {Erase(cell)}
    {
      hide ReprHash, BitSum, Closed;
      SameHash(sha, cell);
      BitSumAdd(counted, Erase(cell));
      OneMore(sha, u, visited, counted, cell);
      visited := visited + {ReprHash(sha, cell)};
      bitCount := bitCount + |cell.bits|;
      cellCount := cellCount + 1;
      counted := counted + {Erase(cell)};
    }

    /** Adds a tree; false when the limit was reached. */
    method AddCell(sha: Sha, cell: Cell, ghost u: set<Cell>) returns (ok: bool)
      requires Complete(sha, u) && Erase(cell) in u
      modifies this
      ensures ok ==> Complete(sha, u) && counted == old(counted) + Reach(Erase(cell)) && sliceBits == old(sliceBits)
      ensures ok <==>
        Erase(cell) in old(counted) || |old(counted) + Reach(Erase(cell))| <= Max(limit, old(cellCount) + 1)
    {
      hide ReprHash, BitSum, Erase, Closed, Reach, Distinct, Children, LeftIn, Counts;
      SameHash(sha, cell);
      InVisited(sha, u, cell);
      CountedSize(sha, u);
      if ReprHash(sha, cell) in visited {
        ReachLeast(Erase(cell), counted);
        assert counted + Reach(Erase(cell)) == counted;
        return true;
      }
      CountCell(sha, cell, u);
      CountedSize(sha, u);
      stack := [References(cell)];
      RootLeads(u, old(counted), cell);
      ok := ReduceStack(sha, u);
    }

    /** Adds a slice: its bits always count, its references like trees. */
    method AddSlice(sha: Sha, bits: nat, refs: RefsIter, ghost u: set<Cell>) returns (ok: bool)
      requires Complete(sha, u) && refs.Ok() && LeftIn(refs) <= u
      modifies this
      ensures ok ==>
        Complete(sha, u) && counted == old(counted) + Distinct(refs.Left()) && sliceBits == old(sliceBits) + bits
      ensures ok <==> |old(counted) + Distinct(refs.Left())| <= Max(limit, old(cellCount))
    {
      hide ReprHash, BitSum, Erase, Closed, Distinct, Children, LeftIn;
      bitCount := bitCount + bits;
      sliceBits := sliceBits + bits;
      ClosedChildren(counted);
      stack := [refs];
      ok := ReduceStack(sha, u);
    }

    /** Works through the stack; every distinct cell below it is counted once, up to the limit. */
    method ReduceStack(sha: Sha, ghost u: set<Cell>) returns (ok: bool)
      requires HashesTell(sha, u) && Counts(sha, u) && |stack| == 1 && stack[0].Ok() && LeftIn(stack[0]) <= u
      requires Children(counted) <= counted + LeftIn(stack[0])
      modifies this`visited, this`stack, this`bitCount, this`cellCount, this`counted
      ensures ok ==> Complete(sha, u) && counted == old(counted) + Distinct(old(stack[0]).Left())
      ensures ok <==> |old(counted) + Distinct(old(stack[0]).Left())| <= Max(limit, old(cellCount))
    {
      hide ReprHash, BitSum, Erase, Closed, Distinct, Children, LeftIn, Covered, StackLeads, StackWeight, Counts;
      ghost var start, base, most := stack[0], counted, Max(limit, cellCount);
      ghost var wanted, target := LeftIn(start), counted + Distinct(start.Left());
      assert stack == [start];
      CountedSize(sha, u);
      StartLeads(u, counted, start);
      label Outer:
      while stack != []
        invariant Busy(sha, u, wanted, base, target, most)
        decreases StackWeight(stack)
      {
        var below := stack[..|stack| - 1];
        ghost var weight := StackWeight(stack);
        while stack[|stack| - 1].next < stack[|stack| - 1].max
          invariant Busy(sha, u, wanted, base, target, most)
          invariant stack != [] && stack[..|stack| - 1] == below && StackWeight(stack) <= weight
          decreases StackWeight(stack)
        {
          var top := stack[|stack| - 1];
          var cell := top.cell.refs[top.next];
          assert stack == below + [top];
          StackWeightStep(below, top);
          TakeChild(wanted, counted, target, below, top);
          SameHash(sha, cell);
          CountedSize(sha, u);
          stack := below + [top.(next := top.next + 1)];
          if ReprHash(sha, cell) in visited {
            InVisited(sha, u, cell);
            continue;
          }
          InVisited(sha, u, cell);
          if cellCount >= limit {
            visited := visited + {ReprHash(sha, cell)};
            SubsetSize(counted + {Erase(cell)}, target);
            SubsetSize(base, counted);
            return false;
          }
          CountCell(sha, cell, u);
          CountedSize(sha, u);
          if |cell.refs| > 0 {
            stack := stack + [References(cell)];
            continue Outer;
          }
        }
        ghost var last := stack[|stack| - 1];
        assert stack == below + [last];
        StackWeightPop(below, last);
        DropIterator(wanted + Children(counted), counted, target, below, last);
        stack := stack[..|stack| - 1];
      }
      AllCounted(wanted, counted, base, start);
      CountedSize(sha, u);
      return true;
    }

    lemma {:induction false} CountedSize(sha: Sha, u: set<Cell>)
      requires Counts(sha, u)
      ensures cellCount == |counted| && counted <= u
    {
    }

    lemma {:induction false} InVisited(sha: Sha, u: set<Cell>, cell: Cell)
      requires Counts(sha, u) && Erase(cell) in u && ReprHash(sha, Erase(cell)) == ReprHash(sha, cell)
      ensures ReprHash(sha, cell) in visited <==> Erase(cell) in counted
    {
      hide ReprHash, Erase;
    }
  }

  /** Visiting a cell's hash visits that cell alone. */
  lemma {:induction false} OneMore(sha: Sha, u: set<Cell>, visited: set<Digest>, counted: set<Cell>, cell: Cell)
    requires HashesTell(sha, u) && Erase(cell) in u && ReprHash(sha, Erase(cell)) == ReprHash(sha, cell)
    requires forall x :: x in u ==> (ReprHash(sha, x) in visited <==> x in counted)
    ensures forall x :: x in u ==> (ReprHash(sha, x) in visited + {ReprHash(sha, cell)} <==> x in counted + {Erase(cell)})
  {
    hide ReprHash, Erase, Closed;
  }

  datatype CellTreeStats = CellTreeStats(bitCount: nat, cellCount: nat)

  /** Counts one tree from scratch: it fits exactly when its distinct cells do, a single cell always. */
  method ComputeForCell(sha: Sha, cell: Cell, limit: nat, ghost u: set<Cell>) returns (r: Option<CellTreeStats>)
    requires HashesTell(sha, u) && Erase(cell) in u
    ensures r.Some? <==> |Reach(Erase(cell))| <= Max(limit, 1)
    ensures r.Some? ==> r.value == CellTreeStats(BitSum(Reach(Erase(cell))), |Reach(Erase(cell))|)
  {
    hide ReprHash, BitSum, Erase, Reach, HashesTell;
    var counter := new StorageStat(limit, sha, u);
    assert {} + Reach(Erase(cell)) == Reach(Erase(cell));
    var ok := counter.AddCell(sha, cell, u);
    r := if ok then Some(CellTreeStats(counter.bitCount, counter.cellCount)) else None;
  }

  /** The same for a slice, whose own bits count and whose own cell does not. */
  method ComputeForSlice(sha: Sha, bits: nat, refs: RefsIter, limit: nat, ghost u: set<Cell>) returns (r: Option<CellTreeStats>)
    requires HashesTell(sha, u) && refs.Ok() && LeftIn(refs) <= u
    ensures r.Some? <==> |Distinct(refs.Left())| <= limit
    ensures r.Some? ==> r.value == CellTreeStats(BitSum(Distinct(refs.Left())) + bits, |Distinct(refs.Left())|)
  {
    hide ReprHash, BitSum, Distinct, LeftIn, HashesTell;
    var counter := new StorageStat(limit, sha, u);
    assert {} + Distinct(refs.Left()) == Distinct(refs.Left());
    var ok := counter.AddSlice(sha, bits, refs, u);
    r := if ok then Some(CellTreeStats(counter.bitCount, counter.cellCount)) else None;
  }

  lemma {:induction false} SameHash(sha: Sha, c: Cell)
    ensures ReprHash(sha, Erase(c)) == ReprHash(sha, c)
  {
    hide HashAt, Erase;
    EraseAnswers(sha, c, MAX_LEVEL);
  }

  /** Counting a root leaves exactly its children to be visited. */
  lemma {:induction false} RootLeads(u: set<Cell>, counted: set<Cell>, root: Cell)
    requires Closed(u) && Closed(counted) && Erase(root) in u
    ensures var more, start := counted + {Erase(root)}, References(root);
      && LeftIn(start) <= u && Children(more) <= more + LeftIn(start)
      && counted + Reach(Erase(root)) == more + Distinct(start.Left())
  {
    hide Erase, Reach, Distinct, Children, LeftIn, Closed;
    ReachErased(root);
    ChildrenUnion(counted, {Erase(root)});
    ClosedChildren(counted);
    ClosedChildren(u);
    ChildrenUnion(u, {Erase(root)});
    assert u + {Erase(root)} == u;
  }

  /** Before the first step everything is covered and leads to the target only. */
  lemma {:induction false} StartLeads(u: set<Cell>, counted: set<Cell>, start: RefsIter)
    requires start.Ok() && Closed(u) && counted <= u && LeftIn(start) <= u && Children(counted) <= counted + LeftIn(start)
    ensures var target := counted + Distinct(start.Left());
      && Closed(target) && target <= u && StackLeads([start], target)
      && Covered(LeftIn(start) + Children(counted), counted, [start])
  {
    hide Erase, ReachAll, LeftIn, Children, Distinct;
    var below := Distinct(start.Left());
    DistinctLeast(start, u);
    ClosedChildren(below);
    ClosedChildren(counted + below);
    ChildrenUnion(counted, below);
    forall y | y in LeftIn(start) + Children(counted)
      ensures CoveredAt(counted, [start], y)
    {
      assert y in LeftIn(start) ==> y in LeftIn([start][0]);
    }
  }

  lemma {:induction false} ChildrenUnion(s: set<Cell>, t: set<Cell>)
    ensures Children(s + t) == Children(s) + Children(t)
  {
    forall z
      ensures z in Children(s + t) <==> z in Children(s) + Children(t)
    {
      if z in Children(s + t) {
        var x, i :| x in s + t && 0 <= i < |x.refs| && z == x.refs[i];
        assert x in s ==> z in Children(s);
        assert x in t ==> z in Children(t);
      }
      if z in Children(s) {
        var x, i :| x in s && 0 <= i < |x.refs| && z == x.refs[i];
        assert x in s + t;
      }
      if z in Children(t) {
        var x, i :| x in t && 0 <= i < |x.refs| && z == x.refs[i];
        assert x in s + t;
      }
    }
  }

  /** Taking the next child from the top iterator, whether it was counted before, has children, or not. */
  lemma {:induction false} TakeChild(wanted: set<Cell>, counted: set<Cell>, target: set<Cell>, below: seq<RefsIter>, top: RefsIter)
    requires AllOk(below) && top.Ok() && top.next < top.max && Closed(target)
    requires Covered(wanted + Children(counted), counted, below + [top]) && StackLeads(below + [top], target)
    ensures var child, advanced := top.cell.refs[top.next], below + [top.(next := top.next + 1)];
      var more, entered := counted + {Erase(child)}, advanced + [References(child)];
      && AllOk(advanced) && StackLeads(advanced, target) && Erase(child) in target
      && AllOk(entered) && StackLeads(entered, target)
      && (Erase(child) in counted ==> Covered(wanted + Children(counted), counted, advanced))
      && (child.refs == [] ==> Covered(wanted + Children(more), more, advanced))
      && Covered(wanted + Children(more), more, entered)
  {
    hide Erase, LeftIn, Children, Closed, StackLeads, Covered;
    var child, next := top.cell.refs[top.next], top.(next := top.next + 1);
    var advanced, more := below + [next], counted + {Erase(child)};
    var tops := [next, References(child)];
    assert below + tops == advanced + [References(child)];
    ChildrenUnion(counted, {Erase(child)});
    LeftInNext(top);
    ReachErased(child);
    TakenLeads(target, below, top);
    NextCovers(more, [next], next);
    NextCovers(more, tops, next);
    CoveredMoves(wanted + Children(counted), counted, more, below, top, [next]);
    CoveredMoves(wanted + Children(counted), counted, more, below, top, tops);
    assert tops[1] == References(child);
    TopCovers(more, advanced, References(child));
    CoveredUnion(wanted + Children(counted), Children({Erase(child)}), more, advanced + [References(child)]);
    assert wanted + Children(counted) + Children({Erase(child)}) == wanted + Children(more);
    if child.refs == [] {
      NoChildren(child);
      assert wanted + Children(more) == wanted + Children(counted);
    }
    if Erase(child) in counted { assert more == counted; }
  }

  lemma {:induction false} NoChildren(c: Cell)
    requires c.refs == []
    ensures Children({Erase(c)}) == {}
  {
  }

  lemma {:induction false} NextCovers(counted: set<Cell>, tops: seq<RefsIter>, next: RefsIter)
    requires AllOk(tops) && tops != [] && tops[0] == next && next.Ok()
    ensures forall y :: y in counted || y in LeftIn(next) ==> CoveredAt(counted, tops, y)
  {
    hide LeftIn;
  }

  lemma {:induction false} TopCovers(counted: set<Cell>, below: seq<RefsIter>, top: RefsIter)
    requires AllOk(below + [top]) && top.Ok()
    ensures Covered(LeftIn(top), counted, below + [top])
  {
    hide LeftIn;
    assert (below + [top])[|below|] == top;
  }

  lemma {:induction false} CoveredUnion(a: set<Cell>, b: set<Cell>, counted: set<Cell>, stack: seq<RefsIter>)
    requires AllOk(stack) && Covered(a, counted, stack) && Covered(b, counted, stack)
    ensures Covered(a + b, counted, stack)
  {
  }

  lemma {:induction false} TakenLeads(target: set<Cell>, below: seq<RefsIter>, top: RefsIter)
    requires AllOk(below) && top.Ok() && top.next < top.max && Closed(target) && StackLeads(below + [top], target)
    ensures var child, next := top.cell.refs[top.next], top.(next := top.next + 1);
      && Erase(child) in target && AllOk(below + [next]) && StackLeads(below + [next], target)
      && AllOk(below + [next, References(child)]) && StackLeads(below + [next, References(child)], target)
  {
    hide Erase, LeftIn, Children, Closed;
    var child, next := top.cell.refs[top.next], top.(next := top.next + 1);
    var stack := below + [top];
    assert stack[|below|] == top && LeftIn(top) <= target;
    assert forall j :: 0 <= j < |below| ==> stack[j] == below[j];
    LeftInNext(top);
    ReachErased(child);
    ClosedChildren(target);
    ChildrenUnion(target, {Erase(child)});
    assert target + {Erase(child)} == target;
    LeadsMoves(target, below, top, [next]);
    LeadsMoves(target, below, top, [next, References(child)]);
  }

  lemma {:induction false} DropIterator(wanted: set<Cell>, counted: set<Cell>, target: set<Cell>, below: seq<RefsIter>, top: RefsIter)
    requires AllOk(below) && top.Ok() && top.next == top.max
    requires Covered(wanted, counted, below + [top]) && StackLeads(below + [top], target)
    ensures AllOk(below) && Covered(wanted, counted, below) && StackLeads(below, target)
  {
    hide LeftIn, StackLeads, Covered;
    LeftInNext(top);
    assert forall j :: 0 <= j < |below| ==> (below + [top])[j] == below[j];
    assert below + [] == below;
    CoveredMoves(wanted, counted, counted, below, top, []);
    LeadsMoves(target, below, top, []);
  }

  /** With nothing left on the stack everything was counted. */
  lemma {:induction false} AllCounted(wanted: set<Cell>, counted: set<Cell>, base: set<Cell>, start: RefsIter)
    requires start.Ok() && wanted == LeftIn(start) && base <= counted <= base + Distinct(start.Left())
    requires Covered(wanted + Children(counted), counted, [])
    ensures Closed(counted) && counted == base + Distinct(start.Left())
  {
    hide LeftIn, Children, Distinct;
    forall y | y in wanted + Children(counted)
      ensures y in counted
    {
      assert CoveredAt(counted, [], y);
    }
    ClosedChildren(counted);
    DistinctLeast(start, counted);
  }
}
