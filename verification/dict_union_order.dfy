/** What iterating over two dictionaries yields: every key of either, once, in order, with both values. */
module DictUnionOrder {
  import opened Cells
  import opened Labels
  import opened DictTrie
  import opened DictIter
  import opened DictOrder
  import opened DictUnion

  /** The value a list of entries holds for a key. */
  function FindEntry(items: seq<Entry>, k: seq<bool>): Option<Slice> {
    if items == [] then None
    else if items[0].key == k then Some(items[0].value)
    else FindEntry(items[1..], k)
  }

  /** The entry pairs exactly what the two lists hold for its key, and one of them holds something. */
  predicate Pairs(e: UnionEntry, ls: seq<Entry>, rs: seq<Entry>) {
    e.left == FindEntry(ls, e.key) && e.right == FindEntry(rs, e.key) && (e.left.Some? || e.right.Some?)
  }

  ghost predicate KeysOf(n: nat, items: seq<Entry>) {
    forall i :: 0 <= i < |items| ==> |items[i].key| == n
  }

  ghost predicate SortedUnion(m: Mode, items: seq<UnionEntry>) {
    forall i, j :: 0 <= i < j < |items| ==> KeyLess(m, items[i].key, items[j].key)
  }

  lemma {:induction false} KeyLessTransitive(m: Mode, a: seq<bool>, b: seq<bool>, c: seq<bool>)
    requires KeyLess(m, a, b) && KeyLess(m, b, c)
    ensures KeyLess(m, a, c)
  {
    hide KeyLess, BitsInt, BitsUint;
    SameLength(m, a, b);
    SameLength(m, b, c);
    ModeOrder(m, a, b);
    ModeOrder(m, b, c);
    ModeOrder(m, a, c);
  }

  lemma {:induction false} SameLength(m: Mode, a: seq<bool>, b: seq<bool>)
    requires KeyLess(m, a, b)
    ensures |a| == |b| && a != b && !KeyLess(m, b, a)
  {
    hide BitsInt, BitsUint;
    ModeOrder(m, a, b);
    ModeOrder(m, b, a);
  }

  lemma {:induction false} FindIsEntry(items: seq<Entry>, k: seq<bool>) returns (i: nat)
    requires FindEntry(items, k).Some?
    ensures i < |items| && items[i] == Entry(k, FindEntry(items, k).value)
  {
    if items[0].key == k {
      i := 0;
    } else {
      i := FindIsEntry(items[1..], k);
      i := i + 1;
    }
  }

  /** In a sorted list, membership is lookup. */
  lemma {:induction false} SortedFind(m: Mode, items: seq<Entry>, k: seq<bool>, v: Slice)
    requires Sorted(m, items)
    ensures Entry(k, v) in items <==> FindEntry(items, k) == Some(v)
  {
    hide KeyLess;
    if items != [] {
      SortedFind(m, items[1..], k, v);
      assert Entry(k, v) in items <==> Entry(k, v) == items[0] || Entry(k, v) in items[1..];
      if Entry(k, v) in items[1..] {
        SameLength(m, items[0].key, k);
      }
    }
  }

  /** A list whose first key is beyond `k`, or whose head has been passed, holds nothing for `k`. */
  lemma {:induction false} FindBeyond(m: Mode, items: seq<Entry>, k: seq<bool>)
    requires Sorted(m, items) && (items == [] || KeyLess(m, k, items[0].key))
    ensures FindEntry(items, k) == None
  {
    hide KeyLess;
    if FindEntry(items, k).Some? {
      var i := FindIsEntry(items, k);
      if i > 0 { KeyLessTransitive(m, k, items[0].key, k); }
      SameLength(m, k, k);
    }
  }

  lemma {:induction false} FindTail(m: Mode, items: seq<Entry>, k: seq<bool>)
    requires Sorted(m, items) && items != []
    ensures FindEntry(items[1..], items[0].key) == None
    ensures FindEntry(items[1..], k).Some? ==> KeyLess(m, items[0].key, k)
  {
    hide KeyLess;
    FindBeyond(m, items[1..], items[0].key);
    if FindEntry(items[1..], k).Some? {
      var i := FindIsEntry(items[1..], k);
      assert items[i + 1].key == k;
    }
  }

  /** A key of a sorted list is its first key or comes after it. */
  lemma {:induction false} FindAfter(m: Mode, items: seq<Entry>, low: seq<bool>, k: seq<bool>)
    requires Sorted(m, items) && items != [] && KeyLess(m, low, items[0].key) && FindEntry(items, k).Some?
    ensures KeyLess(m, low, k)
  {
    hide KeyLess;
    FindTail(m, items, k);
    if items[0].key != k { KeyLessTransitive(m, low, items[0].key, k); }
  }

  /** What one step of the merge produces and what it leaves for later. */
  lemma {:induction false} StepPairs(m: Mode, n: nat, ls: seq<Entry>, rs: seq<Entry>, e: UnionEntry)
    requires Sorted(m, ls) && Sorted(m, rs) && KeysOf(n, ls) && KeysOf(n, rs) && (ls != [] || rs != [])
    ensures var (h, ls', rs') := MergeStep(m, ls, rs);
      && Sorted(m, ls') && Sorted(m, rs') && KeysOf(n, ls') && KeysOf(n, rs')
      && (Pairs(e, ls, rs) <==> e == h || Pairs(e, ls', rs'))
      && (Pairs(e, ls', rs') ==> KeyLess(m, h.key, e.key))
  {
    hide KeyLess, KeyCmp;
    var (h, ls', rs') := MergeStep(m, ls, rs);
    if ls != [] { FindTail(m, ls, e.key); }
    if rs != [] { FindTail(m, rs, e.key); }
    if ls != [] && rs != [] { KeyCmpIsOrder(m, ls[0].key, rs[0].key); }
    if h.left.None? && ls != [] {
      FindBeyond(m, ls, h.key);
      if FindEntry(ls, e.key).Some? { FindAfter(m, ls, h.key, e.key); }
    }
    if h.right.None? && rs != [] {
      FindBeyond(m, rs, h.key);
      if FindEntry(rs, e.key).Some? { FindAfter(m, rs, h.key, e.key); }
    }
    if Pairs(e, ls', rs') {
      SameLength(m, h.key, e.key);
    }
  }

  /** The merge yields exactly the keys of either list, each with what both lists hold for it. */
  lemma {:induction false} MergePairs(m: Mode, n: nat, ls: seq<Entry>, rs: seq<Entry>, e: UnionEntry)
    requires Sorted(m, ls) && Sorted(m, rs) && KeysOf(n, ls) && KeysOf(n, rs)
    ensures e in Merge(m, ls, rs) <==> Pairs(e, ls, rs)
    decreases |ls| + |rs|
  {
    hide KeyLess, KeyCmp, Pairs, MergeStep;
    if ls != [] || rs != [] {
      var (h, ls', rs') := MergeStep(m, ls, rs);
      StepPairs(m, n, ls, rs, e);
      StepShrinks(m, ls, rs);
      MergePairs(m, n, ls', rs', e);
    } else {
      NoPairs(e);
    }
  }

  lemma {:induction false} NoPairs(e: UnionEntry)
    ensures !Pairs(e, [], [])
  {
  }

  lemma {:induction false} StepShrinks(m: Mode, ls: seq<Entry>, rs: seq<Entry>)
    requires ls != [] || rs != []
    ensures var (h, ls', rs') := MergeStep(m, ls, rs); |ls'| + |rs'| < |ls| + |rs|
  {
  }

  lemma {:induction false} MergeSorted(m: Mode, n: nat, ls: seq<Entry>, rs: seq<Entry>)
    requires Sorted(m, ls) && Sorted(m, rs) && KeysOf(n, ls) && KeysOf(n, rs)
    ensures SortedUnion(m, Merge(m, ls, rs))
    decreases |ls| + |rs|
  {
    hide KeyLess, KeyCmp, Pairs, MergeStep;
    if ls != [] || rs != [] {
      var (h, ls', rs') := MergeStep(m, ls, rs);
      var tail := Merge(m, ls', rs');
      StepPairs(m, n, ls, rs, h);
      StepShrinks(m, ls, rs);
      MergeSorted(m, n, ls', rs');
      forall j | 0 <= j < |tail|
        ensures KeyLess(m, h.key, tail[j].key)
      {
        MergePairs(m, n, ls', rs', tail[j]);
        StepPairs(m, n, ls, rs, tail[j]);
      }
    }
  }

  // ---------------------------------------------------------------- two dictionaries

  lemma {:induction false} RootItems(m: Mode, root: Option<Cell>, n: nat)
    requires IsDict(root, n) && n <= MAX_BIT_LEN
    ensures var t := RootTrace(m, root, n);
      && t.error.None? && Sorted(m, t.items) && KeysOf(n, t.items)
      && forall k: seq<bool> :: |k| == n ==> FindEntry(t.items, k) == LookupRoot(root, k)
  {
    hide Walk, Lookup, KeyLess;
    var t := RootTrace(m, root, n);
    if root.Some? {
      WalkGood(m, root.value, n, []);
      assert forall i :: 0 <= i < |t.items| ==> t.items[i] in t.items;
      forall k: seq<bool> | |k| == n
        ensures FindEntry(t.items, k) == LookupRoot(root, k)
      {
        LookupDefined(root.value, k);
        FindLooksUp(m, root.value, n, k);
      }
    }
  }

  lemma {:induction false} FindLooksUp(m: Mode, c: Cell, n: nat, k: seq<bool>)
    requires IsTrie(c, n) && n <= MAX_BIT_LEN && |k| == n && Lookup(c, k).Ok?
    ensures FindEntry(Walk(m, c, n, [], true).items, k) == Lookup(c, k).value
  {
    hide Walk, Lookup, KeyLess, FindEntry;
    var items := Walk(m, c, n, [], true).items;
    var found, held := FindEntry(items, k), Lookup(c, k).value;
    if found.Some? {
      IterationIsSortedMap(m, c, n, k, found.value);
      SortedFind(m, items, k, found.value);
    }
    if held.Some? {
      IterationIsSortedMap(m, c, n, k, held.value);
      SortedFind(m, items, k, held.value);
    }
  }

  /** Merging two iterations yields the keys of either dictionary once, in order, with both values. */
  lemma {:induction false} UnionIsBothMaps(m: Mode, a: Option<Cell>, b: Option<Cell>, n: nat, e: UnionEntry)
    requires IsDict(a, n) && IsDict(b, n) && n <= MAX_BIT_LEN && |e.key| == n
    ensures var union := Merge(m, RootTrace(m, a, n).items, RootTrace(m, b, n).items);
      && RootTrace(m, a, n).error.None? && RootTrace(m, b, n).error.None?
      && SortedUnion(m, union)
      && (e in union <==>
           e.left == LookupRoot(a, e.key) && e.right == LookupRoot(b, e.key) && (e.left.Some? || e.right.Some?))
  {
    hide Walk, Lookup, KeyLess, FindEntry, RootTrace;
    RootItems(m, a, n);
    RootItems(m, b, n);
    MergeSorted(m, n, RootTrace(m, a, n).items, RootTrace(m, b, n).items);
    MergePairs(m, n, RootTrace(m, a, n).items, RootTrace(m, b, n).items, e);
  }
}
