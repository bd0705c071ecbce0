/** The order in which cells get their numbers: children before parents, first to last, each tree once. */
module BocOrder {
  import opened Cells
  import opened CellHash
  import opened CellGraph
  import opened BocFill
  import opened BocNumbering

  /** The cells of a tree in post-order, with repetitions. */
  function PostOrder(c: Cell): seq<Cell>
    decreases c, |c.refs| + 1
  {
    PostOrderRefs(c, 0) + [c]
  }

  function PostOrderRefs(c: Cell, k: nat): seq<Cell>
    requires k <= |c.refs|
    decreases c, |c.refs| - k
  {
    if k == |c.refs| then [] else PostOrder(c.refs[k]) + PostOrderRefs(c, k + 1)
  }

  ghost predicate Listed(sha: Sha, cells: seq<Cell>, h: Digest) {
    exists i :: 0 <= i < |cells| && ReprHash(sha, cells[i]) == h
  }

  /** Appends the cells whose hash is not in the list yet. */
  ghost function AddNew(sha: Sha, cells: seq<Cell>, more: seq<Cell>): seq<Cell>
    decreases |more|
  {
    if more == [] then cells
    else AddNew(sha, if Listed(sha, cells, ReprHash(sha, more[0])) then cells else cells + [more[0]], more[1..])
  }

  lemma {:induction false} AddNewJoin(sha: Sha, cells: seq<Cell>, a: seq<Cell>, b: seq<Cell>)
    ensures AddNew(sha, cells, a + b) == AddNew(sha, AddNew(sha, cells, a), b)
    decreases |a|
  {
    hide ReprHash, Listed;
    if a == [] {
      assert a + b == b;
    } else {
      assert (a + b)[1..] == a[1..] + b;
      AddNewJoin(sha, if Listed(sha, cells, ReprHash(sha, a[0])) then cells else cells + [a[0]], a[1..], b);
    }
  }

  ghost predicate AllKnown(sha: Sha, st: Numbering, cells: seq<Cell>) {
    forall i :: 0 <= i < |cells| ==> ReprHash(sha, cells[i]) in st.indices
  }

  lemma {:induction false} AddNewNothing(sha: Sha, st: Numbering, more: seq<Cell>)
    requires Numbered(sha, st) && AllKnown(sha, st, more)
    ensures AddNew(sha, st.cells, more) == st.cells
    decreases |more|
  {
    hide ReprHash, PlacedAt;
    if more != [] {
      assert Names(sha, st, ReprHash(sha, more[0]));
      forall i | 0 <= i < |more| - 1
        ensures ReprHash(sha, more[1..][i]) in st.indices
      {
        assert more[1..][i] == more[i + 1];
      }
      AddNewNothing(sha, st, more[1..]);
    }
  }

  /** With a cell everything below it has a number. */
  lemma {:induction false} KnownBelow(sha: Sha, u: set<Cell>, st: Numbering, c: Cell)
    requires Universe(sha, u) && c in u && Inside(u, st.cells) && Numbered(sha, st) && ReprHash(sha, c) in st.indices
    ensures AllKnown(sha, st, PostOrder(c))
    decreases c, |c.refs| + 1
  {
    hide ReprHash, Erase;
    KnownBelowRefs(sha, u, st, c, 0);
  }

  lemma {:induction false} KnownBelowRefs(sha: Sha, u: set<Cell>, st: Numbering, c: Cell, k: nat)
    requires Universe(sha, u) && c in u && Inside(u, st.cells) && Numbered(sha, st) && ReprHash(sha, c) in st.indices
    requires k <= |c.refs|
    ensures AllKnown(sha, st, PostOrderRefs(c, k))
    decreases c, |c.refs| - k
  {
    hide ReprHash, Erase, Numbered;
    if k < |c.refs| {
      ChildKnown(sha, u, st, c, k);
      KnownBelow(sha, u, st, c.refs[k]);
      KnownBelowRefs(sha, u, st, c, k + 1);
    }
  }

  lemma {:induction false} ChildKnown(sha: Sha, u: set<Cell>, st: Numbering, c: Cell, k: nat)
    requires Universe(sha, u) && c in u && Inside(u, st.cells) && Numbered(sha, st) && ReprHash(sha, c) in st.indices
    requires k < |c.refs|
    ensures c.refs[k] in u && ReprHash(sha, c.refs[k]) in st.indices
  {
    hide ReprHash, Weight;
    assert Names(sha, st, ReprHash(sha, c));
    var i := st.indices[ReprHash(sha, c)];
    var x := st.cells[i];
    assert PlacedAt(sha, st, i);
    assert |Erase(x).refs| == |x.refs| && |Erase(c).refs| == |c.refs|;
    assert Erase(x).refs[k] == Erase(x.refs[k]) && Erase(c).refs[k] == Erase(c.refs[k]);
    SameErasure(sha, x.refs[k], c.refs[k]);
    assert KnownAt(sha, st, x.refs[k], i);
  }

  /** Numbering a cell lists its tree in post-order, without what is listed already. */
  lemma {:induction false} NumberInOrder(sha: Sha, u: set<Cell>, st: Numbering, c: Cell, w: bool)
    requires Universe(sha, u) && c in u && Inside(u, st.cells) && Numbered(sha, st) && ReprHash(sha, c) !in st.indices
    ensures Number(sha, st, c, w).cells == AddNew(sha, st.cells, PostOrder(c))
    decreases c, |c.refs| + 1
  {
    hide ReprHash, Weight, ByteLenFull, Numbered, CollisionFree, Grew, Push, Known, PostOrderRefs, AddNew;
    var below := NumberRefs(sha, st, c, 0, w);
    NumberRefsKeeps(sha, u, st, c, 0, w);
    NumberRefsInOrder(sha, u, st, c, 0, w);
    NotNumbered(sha, u, st, below, c);
    PushCounts(sha, below, c, w);
    AddNewJoin(sha, st.cells, PostOrderRefs(c, 0), [c]);
    AddOne(sha, below, c);
  }

  lemma {:induction false} AddOne(sha: Sha, st: Numbering, c: Cell)
    requires Numbered(sha, st) && ReprHash(sha, c) !in st.indices
    ensures AddNew(sha, st.cells, [c]) == st.cells + [c]
  {
    hide ReprHash;
    forall i | 0 <= i < |st.cells|
      ensures ReprHash(sha, st.cells[i]) != ReprHash(sha, c)
    {
      assert PlacedAt(sha, st, i);
    }
    assert !Listed(sha, st.cells, ReprHash(sha, c));
    assert [c][1..] == [];
    assert AddNew(sha, st.cells + [c], []) == st.cells + [c];
  }

  lemma {:induction false} NumberRefsInOrder(sha: Sha, u: set<Cell>, st: Numbering, c: Cell, k: nat, w: bool)
    requires Universe(sha, u) && c in u && Inside(u, st.cells) && Numbered(sha, st) && k <= |c.refs|
    ensures NumberRefs(sha, st, c, k, w).cells == AddNew(sha, st.cells, PostOrderRefs(c, k))
    decreases c, |c.refs| - k
  {
    hide ReprHash, Weight, ByteLenFull, Numbered, CollisionFree, Grew, Number, KnownAt, Listed, PostOrder;
    if k < |c.refs| {
      var child := c.refs[k];
      assert child in u;
      AddNewJoin(sha, st.cells, PostOrder(child), PostOrderRefs(c, k + 1));
      if ReprHash(sha, child) in st.indices {
        KnownBelow(sha, u, st, child);
        AddNewNothing(sha, st, PostOrder(child));
        NumberRefsInOrder(sha, u, st, c, k + 1, w);
      } else {
        NumberInOrder(sha, u, st, child, w);
        NumberKeeps(sha, u, st, child, w);
        NumberRefsInOrder(sha, u, Number(sha, st, child, w), c, k + 1, w);
      }
    }
  }

  function PostOrderAll(roots: seq<Cell>): seq<Cell> {
    if roots == [] then [] else PostOrderAll(roots[..|roots| - 1]) + PostOrder(roots[|roots| - 1])
  }

  /** A filled header lists the trees of its roots in post-order, each cell where it is first met. */
  lemma {:induction false} FilledInOrder(sha: Sha, u: set<Cell>, roots: seq<Cell>, w: bool)
    requires Universe(sha, u) && Inside(u, roots)
    ensures Filled(sha, roots, w).cells == AddNew(sha, [], PostOrderAll(roots))
  {
    hide ReprHash, Number, Numbered, Universe, PostOrder, AddNew, Erase;
    if roots == [] {
      NothingNew(sha);
    } else {
      var n := |roots| - 1;
      var before, root := roots[..n], roots[n];
      var st := Filled(sha, before, w);
      FilledInOrder(sha, u, before, w);
      FilledKeeps(sha, u, before, w);
      AddNewJoin(sha, [], PostOrderAll(before), PostOrder(root));
      if ReprHash(sha, root) in st.indices {
        KnownBelow(sha, u, st, root);
        AddNewNothing(sha, st, PostOrder(root));
      } else {
        NumberInOrder(sha, u, st, root, w);
      }
    }
  }

  lemma {:induction false} NothingNew(sha: Sha)
    ensures AddNew(sha, [], []) == []
  {
  }
}
