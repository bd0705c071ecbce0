/** What every filled header satisfies: numbers and cells are inverse, and children come before parents. */
module BocNumbering {
  import opened Cells
  import opened CellHash
  import opened CellGraph
  import opened BocFill

  /** The index names the cell with this hash. */
  ghost predicate Names(sha: Sha, st: Numbering, h: Digest) {
    h in st.indices && st.indices[h] < |st.cells| && ReprHash(sha, st.cells[st.indices[h]]) == h
  }

  ghost predicate PlacedAt(sha: Sha, st: Numbering, i: nat)
    requires i < |st.cells|
  {
    && ReprHash(sha, st.cells[i]) in st.indices && st.indices[ReprHash(sha, st.cells[i])] == i
    && Known(sha, st, st.cells[i].refs, i)
  }

  /** Indices and cells are inverse to each other, without duplicates, children before parents. */
  ghost predicate Numbered(sha: Sha, st: Numbering) {
    && (forall h :: h in st.indices ==> Names(sha, st, h))
    && (forall i :: 0 <= i < |st.cells| ==> PlacedAt(sha, st, i))
  }

  ghost predicate Universe(sha: Sha, u: set<Cell>) {
    Closed(u) && CollisionFree(sha, u) && forall x :: x in u ==> x.Fits()
  }

  ghost predicate Inside(u: set<Cell>, cells: seq<Cell>) {
    forall i :: 0 <= i < |cells| ==> cells[i] in u
  }

  /** Numbers are never taken back, and all new cells are smaller than `bound`. */
  ghost predicate Grew(st: Numbering, st': Numbering, bound: nat) {
    && st.cells <= st'.cells
    && (forall h :: h in st.indices ==> h in st'.indices && st'.indices[h] == st.indices[h])
    && forall i :: |st.cells| <= i < |st'.cells| ==> Weight(st'.cells[i]) < bound
  }

  lemma {:induction false} GrewTransitive(a: Numbering, b: Numbering, c: Numbering, bound: nat, bound': nat)
    requires Grew(a, b, bound) && Grew(b, c, bound') && bound <= bound'
    ensures Grew(a, c, bound')
  {
    hide Weight;
    assert forall i :: 0 <= i < |b.cells| ==> c.cells[i] == b.cells[i];
  }

  lemma {:induction false} PushNumbered(sha: Sha, st: Numbering, c: Cell, w: bool)
    requires Numbered(sha, st) && ReprHash(sha, c) !in st.indices && Known(sha, st, c.refs, |st.cells|)
    ensures Numbered(sha, Push(sha, st, c, w))
    ensures Grew(st, Push(sha, st, c, w), Weight(c) + 1)
  {
    hide ReprHash, ByteLenFull;
    var st' := Push(sha, st, c, w);
    forall h | h in st'.indices
      ensures Names(sha, st', h)
    {
      assert h != ReprHash(sha, c) ==> Names(sha, st, h);
    }
    forall i | 0 <= i < |st'.cells|
      ensures PlacedAt(sha, st', i)
    {
      if i < |st.cells| {
        assert PlacedAt(sha, st, i);
        MoreNumbers(sha, st, st', st.cells[i], i);
      } else {
        MoreNumbers(sha, st, st', c, |st.cells|);
      }
    }
  }

  lemma {:induction false} MoreNumbers(sha: Sha, st: Numbering, st': Numbering, c: Cell, bound: nat)
    requires forall h :: h in st.indices ==> h in st'.indices && st'.indices[h] == st.indices[h]
    requires Known(sha, st, c.refs, bound)
    ensures Known(sha, st', c.refs, bound)
  {
    hide ReprHash;
    forall k | 0 <= k < |c.refs|
      ensures KnownAt(sha, st', c.refs[k], bound)
    {
      assert KnownAt(sha, st, c.refs[k], bound);
    }
  }

  /** A cell cannot have got a number while only smaller cells were numbered. */
  lemma {:induction false} NotNumbered(sha: Sha, u: set<Cell>, st: Numbering, st': Numbering, c: Cell)
    requires CollisionFree(sha, u) && c in u && Inside(u, st'.cells)
    requires Numbered(sha, st) && Numbered(sha, st') && ReprHash(sha, c) !in st.indices && Grew(st, st', Weight(c))
    ensures ReprHash(sha, c) !in st'.indices
  {
    hide ReprHash, Weight, Erase;
    if ReprHash(sha, c) in st'.indices {
      assert Names(sha, st', ReprHash(sha, c));
      var i := st'.indices[ReprHash(sha, c)];
      assert i < |st.cells| ==> PlacedAt(sha, st, i);
      SameErasure(sha, st'.cells[i], c);
    }
  }

  /** Filling with a cell keeps the numbering, and the cell gets the highest number. */
  lemma {:induction false} NumberKeeps(sha: Sha, u: set<Cell>, st: Numbering, c: Cell, w: bool)
    requires Universe(sha, u) && c in u && Inside(u, st.cells) && Numbered(sha, st) && ReprHash(sha, c) !in st.indices
    ensures var st' := Number(sha, st, c, w);
      && Numbered(sha, st') && Grew(st, st', Weight(c) + 1) && Inside(u, st'.cells)
      && st'.cells != [] && st'.cells[|st'.cells| - 1] == c
      && st'.refCount + 1 - st.refCount >= |st'.cells| - |st.cells|
    decreases c, |c.refs| + 1
  {
    hide ReprHash, Weight, ByteLenFull, Numbered, CollisionFree, Grew, Push, Known;
    var below := NumberRefs(sha, st, c, 0, w);
    NumberRefsKeeps(sha, u, st, c, 0, w);
    NotNumbered(sha, u, st, below, c);
    PushNumbered(sha, below, c, w);
    GrewWider(st, below, Weight(c), Weight(c) + 1);
    GrewTransitive(st, below, Number(sha, st, c, w), Weight(c) + 1, Weight(c) + 1);
    PushCounts(sha, below, c, w);
  }

  lemma {:induction false} PushCounts(sha: Sha, st: Numbering, c: Cell, w: bool)
    ensures var st' := Push(sha, st, c, w);
      st'.cells == st.cells + [c] && (c.Fits() ==> st'.refCount == st.refCount + |c.refs|)
  {
  }

  lemma {:induction false} GrewWider(st: Numbering, st': Numbering, bound: nat, bound': nat)
    requires Grew(st, st', bound) && bound <= bound'
    ensures Grew(st, st', bound')
  {
    hide Weight;
  }

  lemma {:induction false} GrewNot(st: Numbering, bound: nat)
    ensures Grew(st, st, bound)
  {
  }

  /** The same for the children from the `k`-th on; all of them have numbers afterwards. */
  lemma {:induction false} NumberRefsKeeps(sha: Sha, u: set<Cell>, st: Numbering, c: Cell, k: nat, w: bool)
    requires Universe(sha, u) && c in u && Inside(u, st.cells) && Numbered(sha, st) && k <= |c.refs|
    requires forall j :: 0 <= j < k ==> KnownAt(sha, st, c.refs[j], |st.cells|)
    ensures var st' := NumberRefs(sha, st, c, k, w);
      && Numbered(sha, st') && Grew(st, st', Weight(c)) && Inside(u, st'.cells)
      && Known(sha, st', c.refs, |st'.cells|)
      && st'.refCount + |c.refs| - k - st.refCount >= |st'.cells| - |st.cells|
    decreases c, |c.refs| - k
  {
    hide ReprHash, Weight, ByteLenFull, Numbered, CollisionFree, Grew, Number, KnownAt;
    if k == |c.refs| {
      GrewNot(st, Weight(c));
    } else {
      var child := c.refs[k];
      ChildWeight(c, k, 0);
      if ReprHash(sha, child) in st.indices {
        NumberedHas(sha, st, child);
        NumberRefsKeeps(sha, u, st, c, k + 1, w);
      } else {
        var mid := Number(sha, st, child, w);
        NumberKeeps(sha, u, st, child, w);
        GrewWider(st, mid, Weight(child) + 1, Weight(c));
        forall j | 0 <= j <= k
          ensures KnownAt(sha, mid, c.refs[j], |mid.cells|)
        {
          if j < k { HasLater(sha, st, mid, c.refs[j], Weight(c)); } else { LastHas(sha, mid); }
        }
        NumberRefsKeeps(sha, u, mid, c, k + 1, w);
        GrewTransitive(st, mid, NumberRefs(sha, mid, c, k + 1, w), Weight(c), Weight(c));
      }
    }
  }

  lemma {:induction false} NumberedHas(sha: Sha, st: Numbering, c: Cell)
    requires Numbered(sha, st) && ReprHash(sha, c) in st.indices
    ensures KnownAt(sha, st, c, |st.cells|)
  {
    hide ReprHash;
    assert Names(sha, st, ReprHash(sha, c));
  }

  lemma {:induction false} HasLater(sha: Sha, st: Numbering, st': Numbering, c: Cell, bound: nat)
    requires KnownAt(sha, st, c, |st.cells|) && Grew(st, st', bound)
    ensures KnownAt(sha, st', c, |st'.cells|)
  {
    hide ReprHash, Weight;
  }

  lemma {:induction false} LastHas(sha: Sha, st: Numbering)
    requires Numbered(sha, st) && st.cells != []
    ensures KnownAt(sha, st, st.cells[|st.cells| - 1], |st.cells|)
    ensures st.indices[ReprHash(sha, st.cells[|st.cells| - 1])] == |st.cells| - 1
  {
    hide ReprHash;
    assert PlacedAt(sha, st, |st.cells| - 1);
  }

  // ---------------------------------------------------------------- all roots

  /** Root `i` is the cell with the `i`-th root number. */
  ghost predicate RootPlaced(st: Numbering, numbers: seq<nat>, roots: seq<Cell>, i: nat)
    requires i < |roots| == |numbers|
  {
    numbers[i] < |st.cells| && Erase(st.cells[numbers[i]]) == Erase(roots[i])
  }

  ghost predicate AllPlaced(st: Numbering, numbers: seq<nat>, roots: seq<Cell>) {
    |numbers| == |roots| && forall i :: 0 <= i < |roots| ==> RootPlaced(st, numbers, roots, i)
  }

  /** A filled header is numbered, knows its roots, and every cell but the roots is referred to. */
  lemma {:induction false} FilledKeeps(sha: Sha, u: set<Cell>, roots: seq<Cell>, w: bool)
    requires Universe(sha, u) && Inside(u, roots)
    ensures var st, numbers := Filled(sha, roots, w), RootNumbers(sha, roots, w);
      && Numbered(sha, st) && Inside(u, st.cells) && |st.cells| <= st.refCount + |roots|
      && (roots != [] ==> st.cells != [])
    ensures AllPlaced(Filled(sha, roots, w), RootNumbers(sha, roots, w), roots)
  {
    hide ReprHash, Erase, Number, Numbered, Universe, Grew;
    if roots == [] {
      EmptyNumbered(sha);
    } else {
      var n := |roots| - 1;
      var before, root := roots[..n], roots[n];
      FilledKeeps(sha, u, before, w);
      RootKeeps(sha, u, Filled(sha, before, w), root, w);
      var st, st' := Filled(sha, before, w), Filled(sha, roots, w);
      forall i | 0 <= i < |roots|
        ensures RootPlaced(st', RootNumbers(sha, roots, w), roots, i)
      {
        if i < n { assert RootPlaced(st, RootNumbers(sha, before, w), before, i); }
      }
    }
  }

  lemma {:induction false} EmptyNumbered(sha: Sha)
    ensures Numbered(sha, EMPTY)
  {
  }

  /** Adding one root keeps all that and gives the root its number. */
  lemma {:induction false} RootKeeps(sha: Sha, u: set<Cell>, st: Numbering, root: Cell, w: bool)
    requires Universe(sha, u) && root in u && Numbered(sha, st) && Inside(u, st.cells)
    ensures var st', number := AfterRoot(sha, st, root, w), RootNumber(sha, st, root, w);
      && Numbered(sha, st') && Inside(u, st'.cells) && st.cells <= st'.cells
      && st'.refCount + 1 - st.refCount >= |st'.cells| - |st.cells|
      && number < |st'.cells| && Erase(st'.cells[number]) == Erase(root)
  {
    hide ReprHash, Erase, Number;
    if ReprHash(sha, root) in st.indices {
      assert Names(sha, st, ReprHash(sha, root));
    } else {
      NumberKeeps(sha, u, st, root, w);
      LastHas(sha, Number(sha, st, root, w));
    }
  }
}
