/** The root of an augmented dictionary carries the combination of all its leaves, in key order. */
module DictAugExtra {
  import opened Cells
  import opened Labels
  import opened CellIo
  import opened DictTrie
  import opened DictOps
  import opened DictIter
  import opened DictAug
  import DictLaws
  import CellHash

  /** Reading an extra from the front of a slice. */
  type Loader<!A> = Slice -> Result<A, DictError>

  type Adder<!A> = (A, A) -> A

  /** The combination of two branches starts with the sum of what the branches start with. */
  ghost predicate Adds<A(!new)>(cmp: AugFn, load: Loader<A>, add: Adder<A>) {
    forall l, r :: cmp(l, r).Ok? ==> AddsAt(cmp, load, add, l, r)
  }

  ghost predicate AddsAt<A>(cmp: AugFn, load: Loader<A>, add: Adder<A>, l: Slice, r: Slice)
    requires cmp(l, r).Ok?
  {
    load(l).Ok? && load(r).Ok? && load(cmp(l, r).value) == Ok(add(load(l).value, load(r).value))
  }

  ghost predicate Associative<A(!new)>(add: Adder<A>) {
    forall x, y, z :: add(add(x, y), z) == add(x, add(y, z))
  }

  /** Combination of a non-empty list, from the left. */
  function Fold<A>(add: Adder<A>, s: seq<A>): A
    requires s != []
  {
    if |s| == 1 then s[0] else add(Fold(add, s[..|s| - 1]), s[|s| - 1])
  }

  lemma {:induction false} FoldConcat<A(!new)>(add: Adder<A>, s: seq<A>, t: seq<A>)
    requires Associative(add) && s != [] && t != []
    ensures Fold(add, s + t) == add(Fold(add, s), Fold(add, t))
    decreases |t|
  {
    var last := t[|t| - 1];
    if |t| == 1 {
      assert (s + t)[..|s|] == s;
    } else {
      FoldConcat(add, s, t[..|t| - 1]);
      assert (s + t)[..|s + t| - 1] == s + t[..|t| - 1] && (s + t)[|s + t| - 1] == last;
      assert add(add(Fold(add, s), Fold(add, t[..|t| - 1])), last) == add(Fold(add, s), add(Fold(add, t[..|t| - 1]), last));
    }
  }

  predicate AllLoad<A>(load: Loader<A>, items: seq<Entry>) {
    forall i :: 0 <= i < |items| ==> load(items[i].value).Ok?
  }

  /** The extras of entries, in their order. */
  function Extras<A>(load: Loader<A>, items: seq<Entry>): (s: seq<A>)
    requires AllLoad(load, items)
    ensures |s| == |items|
  {
    seq(|items|, i requires 0 <= i < |items| => load(items[i].value).value)
  }

  const ASCENDING := Mode(false, false)

  /** An unsigned forward walk visits the left branch, then the right one. */
  lemma {:induction false} WalkFork(c: Cell, n: nat, path: seq<bool>, isRoot: bool)
    requires IsTrie(c, n) && |path| + n <= MAX_BIT_LEN && |View(c, n).value.0| < n
    ensures var part := View(c, n).value.0; var below := n - |part| - 1;
      Walk(ASCENDING, c, n, path, isRoot) ==
        Then(Walk(ASCENDING, c.refs[0], below, path + part + [false], false),
             Walk(ASCENDING, c.refs[1], below, path + part + [true], false))
  {
    hide ParseLabel;
    var part := View(c, n).value.0;
    var below := n - |part| - 1;
    assert View(c.refs[0], below).Ok? && View(c.refs[1], below).Ok?;
  }

  /** Below every fork the extra is the fold of the leaves' extras. */
  lemma {:induction false} ExtraIsFold<A(!new)>(cmp: AugFn, load: Loader<A>, add: Adder<A>, c: Cell, n: nat, path: seq<bool>, isRoot: bool)
    requires AugTrie(cmp, c, n) && |path| + n <= MAX_BIT_LEN && Adds(cmp, load, add) && Associative(add)
    requires load(Payload(c, n).value).Ok?
    ensures var t := Walk(ASCENDING, c, n, path, isRoot);
      && t.error.None? && t.items != [] && AllLoad(load, t.items)
      && load(Payload(c, n).value) == Ok(Fold(add, Extras(load, t.items)))
    decreases c
  {
    hide ParseLabel, Walk, Lookup, Fold, Extras, Associative;
    var part := View(c, n).value.0;
    if |part| < n {
      var below := n - |part| - 1;
      var l, r := Payload(c.refs[0], below).value, Payload(c.refs[1], below).value;
      assert AddsAt(cmp, load, add, l, r);
      WalkFork(c, n, path, isRoot);
      ExtraIsFold(cmp, load, add, c.refs[0], below, path + part + [false], false);
      ExtraIsFold(cmp, load, add, c.refs[1], below, path + part + [true], false);
      var a := Walk(ASCENDING, c.refs[0], below, path + part + [false], false).items;
      var b := Walk(ASCENDING, c.refs[1], below, path + part + [true], false).items;
      ExtrasJoin(load, a, b);
      FoldConcat(add, Extras(load, a), Extras(load, b));
    } else {
      WalkLeaf(c, n, path, isRoot);
      OneExtra(load, Walk(ASCENDING, c, n, path, isRoot).items[0], add);
    }
  }

  lemma {:induction false} ExtrasJoin<A>(load: Loader<A>, a: seq<Entry>, b: seq<Entry>)
    requires AllLoad(load, a) && AllLoad(load, b)
    ensures AllLoad(load, a + b) && Extras(load, a + b) == Extras(load, a) + Extras(load, b)
  {
  }

  lemma {:induction false} OneExtra<A(!new)>(load: Loader<A>, e: Entry, add: Adder<A>)
    requires load(e.value).Ok?
    ensures AllLoad(load, [e]) && Fold(add, Extras(load, [e])) == load(e.value).value
  {
    assert Extras(load, [e]) == [load(e.value).value];
  }

  lemma {:induction false} WalkLeaf(c: Cell, n: nat, path: seq<bool>, isRoot: bool)
    requires IsTrie(c, n) && |path| + n <= MAX_BIT_LEN && |View(c, n).value.0| == n
    ensures Walk(ASCENDING, c, n, path, isRoot) ==
      Trace([Entry(path + View(c, n).value.0, Payload(c, n).value)], None)
  {
    hide ParseLabel;
  }

  /** An augmented dictionary: the root and the extra of the whole. */
  class AugDict<A(0,!new)> {
    const n: nat
    var root: Option<Cell>
    var extra: A

    constructor (n: nat, empty: A)
      ensures this.n == n && root == None && extra == empty
    {
      this.n, root, extra := n, None, empty;
    }

    /** The extra is the fold of all leaves, or the default for the empty dictionary. */
    ghost predicate Valid(cmp: AugFn, load: Loader<A>, add: Adder<A>, empty: A)
      reads this
    {
      && n <= MAX_BIT_LEN
      && (root.None? ==> extra == empty)
      && (root.Some? ==>
           && AugTrie(cmp, root.value, n)
           && var items := Walk(ASCENDING, root.value, n, [], true).items;
              AllLoad(load, items) && items != [] && extra == Fold(add, Extras(load, items)))
    }

    /** The root was replaced, and its extra could not be read afterwards. */
    predicate ExtraFails(load: Loader<A>, e: DictError)
      reads this
    {
      root.Some? && Payload(root.value, n).Ok? && load(Payload(root.value, n).value) == Err(e)
    }

    /** Recomputes the root extra from the root edge. */
    method UpdateRootExtra(load: Loader<A>, empty: A) returns (r: Result<(), DictError>)
      modifies this`extra
      ensures root.None? ==> r.Ok? && extra == empty
      ensures root.Some? ==>
        var payload := Payload(root.value, n);
        if payload.Err? then r == Err(payload.error) && extra == old(extra)
        else if load(payload.value).Err? then r == Err(load(payload.value).error) && extra == old(extra)
        else r.Ok? && Ok(extra) == load(payload.value)
    {
      hide ParseLabel;
      if root.None? {
        extra := empty;
        return Ok(());
      }
      var slice := SkipLabelFull(root.value, n);
      if slice.Err? { return Err(slice.error); }
      var loaded := load(slice.value);
      if loaded.Err? { return Err(loaded.error); }
      extra := loaded.value;
      r := Ok(());
    }

    /** Stores a value with its extra; a change that succeeds keeps the extra of the whole up to date. */
    method Insert(sha: CellHash.Sha, cmp: AugFn, load: Loader<A>, ghost add: Adder<A>, empty: A, key: seq<bool>, value: Slice, mode: SetMode)
      returns (r: Result<bool, DictError>)
      requires Valid(cmp, load, add, empty) && Adds(cmp, load, add) && Associative(add)
      modifies this
      ensures r.Ok? ==> Valid(cmp, load, add, empty)
      ensures r == Ok(false) ==> root == old(root)
      ensures |key| != n ==> r == Err(CellUnderflow)
      ensures |key| == n ==> (r == Ok(false) <==> Refused(mode, LookupRoot(old(root), key)))
      ensures r == Ok(true) ==>
        root.Some? && forall k: seq<bool> :: |k| == n ==>
          LookupRoot(root, k) == if k == key then Some(value) else LookupRoot(old(root), k)
      ensures r.Err? ==> extra == old(extra) && (root == old(root) || ExtraFails(load, r.error))
    {
      hide ParseLabel, Walk, EdgeCell, AugInsert, AugTrie, Lookup, Payload, Adds, Associative;
      if |key| != n { return Err(CellUnderflow); }
      if root.None? {
        if !mode.CanAdd() { return Ok(false); }
        var leaf := MakeEdge(sha, key, n, value);
        if leaf.Err? { return Err(leaf.error); }
        NewLeaf(cmp, key, value);
        root := Some(leaf.value);
      } else {
        AugModeMeaning(cmp, root.value, key, value, mode);
        var changed := AugInsertInto(sha, cmp, root.value, key, value, mode);
        if changed.Err? { return Err(changed.error); }
        if changed.value.None? { return Ok(false); }
        Inserted(cmp, root.value, key, value, mode);
        root := changed.value;
      }
      AugIsTrie(cmp, root.value, n);
      var updated := UpdateRootExtra(load, empty);
      if updated.Err? { return Err(updated.error); }
      ExtraIsFold(cmp, load, add, root.value, n, [], true);
      r := Ok(true);
    }

    /** Removes a key; a removal that succeeds keeps the extra of the whole up to date. */
    method Remove(sha: CellHash.Sha, cmp: AugFn, load: Loader<A>, ghost add: Adder<A>, empty: A, key: seq<bool>)
      returns (r: Result<Option<Slice>, DictError>)
      requires Valid(cmp, load, add, empty) && Adds(cmp, load, add) && Associative(add)
      modifies this
      ensures r.Ok? ==> Valid(cmp, load, add, empty) && |key| == n && r.value == LookupRoot(old(root), key)
      ensures r == Ok(None) ==> root == old(root)
      ensures r.Ok? ==>
        forall k: seq<bool> :: |k| == n ==> LookupRoot(root, k) == if k == key then None else LookupRoot(old(root), k)
      ensures r.Err? ==> extra == old(extra) && (root == old(root) || ExtraFails(load, r.error))
    {
      hide ParseLabel, Walk, EdgeCell, AugRemove, AugTrie, Lookup, Payload, Adds, Associative, IsTrie;
      if |key| != n { return Err(CellUnderflow); }
      if root.None? { return Ok(None); }
      var removal := AugRemoveFrom(sha, cmp, root.value, key);
      if removal.Err? { return Err(removal.error); }
      Removed(cmp, root.value, key);
      match removal.value {
        case NotFound => return Ok(None);
        case Gone(v) => root := None; r := Ok(Some(v));
        case Left(c, v) => root := Some(c); r := Ok(Some(v));
      }
      if root.Some? { AugIsTrie(cmp, root.value, n); }
      var updated := UpdateRootExtra(load, empty);
      if updated.Err? { return Err(updated.error); }
      if root.Some? { ExtraIsFold(cmp, load, add, root.value, n, [], true); }
    }
  }

  lemma {:induction false} AugIsTrie(cmp: AugFn, c: Cell, n: nat)
    requires AugTrie(cmp, c, n)
    ensures IsTrie(c, n) && Payload(c, n).Ok?
  {
    hide ParseLabel;
    TriePayload(c, n);
  }

  lemma {:induction false} NewLeaf(cmp: AugFn, key: seq<bool>, value: Slice)
    requires |key| <= MAX_BIT_LEN && EdgeCell(key, |key|, value.bits, value.refs).Ok?
    ensures var d := EdgeCell(key, |key|, value.bits, value.refs).value;
      AugTrie(cmp, d, |key|) && forall k: seq<bool> :: |k| == |key| ==> Lookup(d, k) == Ok(if k == key then Some(value) else None)
  {
    hide ParseLabel, EdgeCell, Lookup;
    LeafIsAug(cmp, key, value);
    var d := EdgeCell(key, |key|, value.bits, value.refs).value;
    forall k: seq<bool> | |k| == |key|
      ensures Lookup(d, k) == Ok(if k == key then Some(value) else None)
    {
      DictLaws.LeafLookup(d, key, k);
    }
  }

  lemma {:induction false} Inserted(cmp: AugFn, c: Cell, key: seq<bool>, value: Slice, mode: SetMode)
    requires AugTrie(cmp, c, |key|) && |key| <= MAX_BIT_LEN
    requires AugInsert(cmp, c, key, value, mode).Ok? && AugInsert(cmp, c, key, value, mode).value.Some?
    ensures var d := AugInsert(cmp, c, key, value, mode).value.value;
      AugTrie(cmp, d, |key|)
      && forall k: seq<bool> :: |k| == |key| ==> Lookup(d, k) == if k == key then Ok(Some(value)) else Lookup(c, k)
  {
    hide ParseLabel, EdgeCell, Lookup, AugInsert, AugTrie;
    var d := AugInsert(cmp, c, key, value, mode).value.value;
    AugInsertMeaning(cmp, c, key, value, mode, key);
    forall k: seq<bool> | |k| == |key|
      ensures Lookup(d, k) == if k == key then Ok(Some(value)) else Lookup(c, k)
    {
      AugInsertMeaning(cmp, c, key, value, mode, k);
    }
  }

  lemma {:induction false} Removed(cmp: AugFn, c: Cell, key: seq<bool>)
    requires AugTrie(cmp, c, |key|) && |key| <= MAX_BIT_LEN && AugRemove(cmp, c, key).Ok?
    ensures var removal := AugRemove(cmp, c, key).value;
      && Lookup(c, key) == Ok(RemovedValue(removal))
      && (removal.Left? ==> AugTrie(cmp, removal.cell, |key|))
      && forall k: seq<bool> :: |k| == |key| ==>
           LookupRoot(RemainingRoot(Some(c), removal), k) == if k == key then None else LookupRoot(Some(c), k)
  {
    hide ParseLabel, EdgeCell, Lookup, AugRemove, AugTrie;
    var removal := AugRemove(cmp, c, key).value;
    AugRemoveMeaning(cmp, c, key, key);
    forall k: seq<bool> | |k| == |key|
      ensures LookupRoot(RemainingRoot(Some(c), removal), k) == if k == key then None else LookupRoot(Some(c), k)
    {
      AugRemoveMeaning(cmp, c, key, k);
    }
  }
}
