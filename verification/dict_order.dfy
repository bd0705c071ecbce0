/** What iteration yields: every entry of the trie once, in the order of the keys. */
module DictOrder {
  import opened Cells
  import opened Labels
  import opened DictTrie
  import opened DictIter

  // ---------------------------------------------------------------- the order of keys

  /** `a` comes before `b`: at the first difference `a` takes the branch that is visited first. */
  predicate KeyLess(m: Mode, a: seq<bool>, b: seq<bool>) {
    var i := CommonPrefix(a, b);
    |a| == |b| && i < |a| && a[i] == m.First(i == 0)
  }

  /** Two's complement value of a bit string. */
  function BitsInt(s: seq<bool>): int {
    if s != [] && s[0] then BitsUint(s) - Pow2(|s|) else BitsUint(s)
  }

  lemma {:induction false} UintOrder(a: seq<bool>, b: seq<bool>)
    requires |a| == |b|
    ensures KeyLess(Mode(false, false), a, b) <==> BitsUint(a) < BitsUint(b)
  {
    if a != [] {
      BitsUintHead(a);
      BitsUintHead(b);
      BitsUintBound(a[1..]);
      BitsUintBound(b[1..]);
      if a[0] == b[0] { UintOrder(a[1..], b[1..]); }
    }
  }

  /** The four modes are the numeric orders they stand for. */
  lemma {:induction false} ModeOrder(m: Mode, a: seq<bool>, b: seq<bool>)
    requires |a| == |b|
    ensures KeyLess(m, a, b) <==>
      var x, y := if m.signed then BitsInt(a) else BitsUint(a), if m.signed then BitsInt(b) else BitsUint(b);
      if m.reversed then y < x else x < y
  {
    UintOrder(a, b);
    UintOrder(b, a);
    CommonPrefixSymmetric(a, b);
    BitsUintBound(a);
    BitsUintBound(b);
  }

  lemma {:induction false} CommonPrefixIs(a: seq<bool>, b: seq<bool>, l: nat)
    requires l < |a| && l < |b| && a[..l] == b[..l] && a[l] != b[l]
    ensures CommonPrefix(a, b) == l
  {
    var k := CommonPrefix(a, b);
    forall i | 0 <= i < l
      ensures a[i] == b[i]
    {
      assert a[..l][i] == b[..l][i];
    }
    forall i | 0 <= i < k
      ensures a[i] == b[i]
    {
      assert a[..k][i] == b[..k][i];
    }
  }

  ghost predicate Sorted(m: Mode, items: seq<Entry>) {
    forall i, j :: 0 <= i < j < |items| ==> KeyLess(m, items[i].key, items[j].key)
  }

  // ---------------------------------------------------------------- the walk

  /** An entry found below an edge: its key extends the path by a key of the trie. */
  ghost predicate EntryOf(c: Cell, n: nat, path: seq<bool>, e: Entry) {
    && |e.key| == |path| + n && path <= e.key
    && Lookup(c, e.key[|path|..]) == Ok(Some(e.value))
  }

  ghost predicate Complete(c: Cell, n: nat, path: seq<bool>, items: seq<Entry>) {
    forall k: seq<bool> :: |k| == n && Lookup(c, k).Ok? && Lookup(c, k).value.Some? ==>
      Entry(path + k, Lookup(c, k).value.value) in items
  }

  /** The walk over a well-formed trie has no error, is sorted, sound and complete. */
  ghost predicate GoodWalk(m: Mode, c: Cell, n: nat, path: seq<bool>, t: Trace) {
    && t.error.None?
    && Sorted(m, t.items)
    && (forall e :: e in t.items ==> EntryOf(c, n, path, e))
    && Complete(c, n, path, t.items)
  }

  lemma {:induction false} WalkGood(m: Mode, c: Cell, n: nat, path: seq<bool>)
    requires IsTrie(c, n) && |path| + n <= MAX_BIT_LEN
    ensures GoodWalk(m, c, n, path, Walk(m, c, n, path, path == []))
    decreases c
  {
    hide ParseLabel, Lookup, GoodWalk;
    var (part, rest) := View(c, n).value;
    if |part| == n {
      LeafGood(m, c, n, path);
    } else {
      var first := m.First(path == [] && part == []);
      var below := n - |part| - 1;
      assert IsTrie(Child(c, first), below) && IsTrie(Child(c, !first), below);
      WalkGood(m, Child(c, first), below, path + part + [first]);
      WalkGood(m, Child(c, !first), below, path + part + [!first]);
      var a := Walk(m, Child(c, first), below, path + part + [first], false);
      var b := Walk(m, Child(c, !first), below, path + part + [!first], false);
      ForkGood(m, c, n, path, a, b);
      assert a == WalkChild(m, c, first, below, path + part) by { ExoticFree(Child(c, first), below); }
      assert b == WalkChild(m, c, !first, below, path + part) by { ExoticFree(Child(c, !first), below); }
    }
  }

  /** An iteration ends with an error exactly when the cells do not form a trie. */
  lemma {:induction false} WalkFails(m: Mode, c: Cell, n: nat, path: seq<bool>, isRoot: bool)
    requires !c.exotic && |path| + n <= MAX_BIT_LEN
    ensures Walk(m, c, n, path, isRoot).error.None? <==> IsTrie(c, n)
    decreases c
  {
    hide ParseLabel;
    var parsed := ParseLabel(c.bits, n);
    if parsed.Ok? && |parsed.value.0| < n && |c.refs| >= 2 {
      var part := parsed.value.0;
      var below := n - |part| - 1;
      forall bit: bool
        ensures WalkChild(m, c, bit, below, path + part).error.None? <==> IsTrie(Child(c, bit), below)
      {
        if !Child(c, bit).exotic { WalkFails(m, Child(c, bit), below, path + part + [bit], false); }
      }
      assert c.refs[0] == Child(c, false) && c.refs[1] == Child(c, true);
    }
  }

  /** Whatever an iteration yields, before an error too, is in the dictionary under that key. */
  lemma {:induction false} WalkSound(m: Mode, c: Cell, n: nat, path: seq<bool>, isRoot: bool, e: Entry)
    requires !c.exotic && |path| + n <= MAX_BIT_LEN && e in Walk(m, c, n, path, isRoot).items
    ensures EntryOf(c, n, path, e)
    decreases c
  {
    hide ParseLabel, Lookup;
    var (part, rest) := ParseLabel(c.bits, n).value;
    if |part| == n {
      LeafEntry(c, n, path, e);
    } else {
      var first := m.First(isRoot && part == []);
      var below := n - |part| - 1;
      var bit := if e in WalkChild(m, c, first, below, path + part).items then first else !first;
      WalkSound(m, Child(c, bit), below, path + part + [bit], false, e);
      EntryAbove(c, n, path, bit, e);
    }
  }

  lemma {:induction false} LeafEntry(c: Cell, n: nat, path: seq<bool>, e: Entry)
    requires View(c, n).Ok? && |View(c, n).value.0| == n && e == Entry(path + View(c, n).value.0, Slice(View(c, n).value.1, c.refs))
    ensures EntryOf(c, n, path, e)
  {
    hide ParseLabel;
    assert e.key[|path|..] == View(c, n).value.0;
  }

  /** An entry below a branch is an entry below the fork. */
  lemma {:induction false} EntryAbove(c: Cell, n: nat, path: seq<bool>, bit: bool, e: Entry)
    requires View(c, n).Ok? && |View(c, n).value.0| < n && |c.refs| >= 2
    requires var part := View(c, n).value.0; EntryOf(Child(c, bit), n - |part| - 1, path + part + [bit], e)
    ensures EntryOf(c, n, path, e)
  {
    hide ParseLabel;
    var part := View(c, n).value.0;
    var whole, tail := e.key[|path|..], e.key[|path + part + [bit]|..];
    assert e.key == path + part + [bit] + tail;
    assert whole == part + [bit] + tail;
    assert part <= whole && whole[|part|] == bit && whole[|part| + 1..] == tail;
  }

  lemma {:induction false} ExoticFree(c: Cell, n: nat)
    requires IsTrie(c, n)
    ensures !c.exotic
  {
    hide ParseLabel;
  }

  lemma {:induction false} LeafGood(m: Mode, c: Cell, n: nat, path: seq<bool>)
    requires IsTrie(c, n) && |View(c, n).value.0| == n
    ensures var (part, rest) := View(c, n).value;
      GoodWalk(m, c, n, path, Trace([Entry(path + part, Slice(rest, c.refs))], None))
  {
    hide ParseLabel;
    var (part, rest) := View(c, n).value;
    assert (path + part)[|path|..] == part;
    forall k: seq<bool> | |k| == n && k != part
      ensures Lookup(c, k) == Ok(None)
    {
      assert !(part <= k);
    }
  }

  /** The walks of the two branches of a fork. */
  ghost predicate GoodBranches(m: Mode, c: Cell, n: nat, path: seq<bool>, a: Trace, b: Trace)
    requires IsTrie(c, n) && |View(c, n).value.0| < n
  {
    var part := View(c, n).value.0;
    var first := m.First(path == [] && part == []);
    && GoodWalk(m, Child(c, first), n - |part| - 1, path + part + [first], a)
    && GoodWalk(m, Child(c, !first), n - |part| - 1, path + part + [!first], b)
  }

  lemma {:induction false} ForkSorted(m: Mode, c: Cell, n: nat, path: seq<bool>, a: Trace, b: Trace)
    requires IsTrie(c, n) && |View(c, n).value.0| < n && GoodBranches(m, c, n, path, a, b)
    ensures Sorted(m, a.items + b.items)
  {
    hide View, Lookup, KeyLess, Complete;
    var part := View(c, n).value.0;
    var items := a.items + b.items;
    forall i, j | 0 <= i < j < |items|
      ensures KeyLess(m, items[i].key, items[j].key)
    {
      if i < |a.items| && j >= |a.items| {
        assert items[i] in a.items && items[j] in b.items;
        BranchOrder(m, path + part, items[i].key, items[j].key);
      }
    }
  }

  lemma {:induction false} ForkSound(m: Mode, c: Cell, n: nat, path: seq<bool>, a: Trace, b: Trace, e: Entry)
    requires IsTrie(c, n) && |View(c, n).value.0| < n && GoodBranches(m, c, n, path, a, b)
    requires e in a.items + b.items
    ensures EntryOf(c, n, path, e)
  {
    hide View, Lookup, KeyLess, Complete, Sorted;
    var first := m.First(path == [] && View(c, n).value.0 == []);
    BranchEntry(c, n, path, if e in a.items then first else !first, e);
  }

  lemma {:induction false} ForkComplete(m: Mode, c: Cell, n: nat, path: seq<bool>, a: Trace, b: Trace, k: seq<bool>)
    requires IsTrie(c, n) && |View(c, n).value.0| < n && GoodBranches(m, c, n, path, a, b)
    requires |k| == n && Lookup(c, k).Ok? && Lookup(c, k).value.Some?
    ensures Entry(path + k, Lookup(c, k).value.value) in a.items + b.items
  {
    hide View, Lookup, KeyLess, EntryOf, Sorted;
    var part := View(c, n).value.0;
    var first, l := m.First(path == [] && part == []), |part|;
    BranchComplete(c, n, path, k);
    var tail := k[l + 1..];
    assert path + part + [k[l]] + tail == path + k;
    assert |tail| == n - l - 1 && Lookup(Child(c, k[l]), tail) == Lookup(c, k);
  }

  /** The two branches of a fork, one after the other. */
  lemma {:induction false} ForkGood(m: Mode, c: Cell, n: nat, path: seq<bool>, a: Trace, b: Trace)
    requires IsTrie(c, n) && |View(c, n).value.0| < n && GoodBranches(m, c, n, path, a, b)
    ensures GoodWalk(m, c, n, path, Then(a, b))
  {
    hide View, Lookup, KeyLess, EntryOf, IsTrie;
    ForkSorted(m, c, n, path, a, b);
    forall e | e in a.items + b.items
      ensures EntryOf(c, n, path, e)
    {
      ForkSound(m, c, n, path, a, b, e);
    }
    forall k: seq<bool> | |k| == n && Lookup(c, k).Ok? && Lookup(c, k).value.Some?
      ensures Entry(path + k, Lookup(c, k).value.value) in a.items + b.items
    {
      ForkComplete(m, c, n, path, a, b, k);
    }
  }

  lemma {:induction false} BranchOrder(m: Mode, stem: seq<bool>, x: seq<bool>, y: seq<bool>)
    requires |x| == |y| && stem + [m.First(stem == [])] <= x && stem + [!m.First(stem == [])] <= y
    ensures KeyLess(m, x, y)
  {
    var l := |stem|;
    assert x[..l] == stem && y[..l] == stem;
    assert x[l] == (stem + [m.First(stem == [])])[l] && y[l] == (stem + [!m.First(stem == [])])[l];
    CommonPrefixIs(x, y, l);
  }

  lemma {:induction false} BranchEntry(c: Cell, n: nat, path: seq<bool>, bit: bool, e: Entry)
    requires IsTrie(c, n) && |View(c, n).value.0| < n
    requires EntryOf(Child(c, bit), n - |View(c, n).value.0| - 1, path + View(c, n).value.0 + [bit], e)
    ensures EntryOf(c, n, path, e)
  {
    hide View, Lookup;
    var part := View(c, n).value.0;
    var stem := path + part + [bit];
    var k := e.key[|stem|..];
    assert e.key == stem + k;
    assert e.key[|path|..] == part + [bit] + k;
    LookupStep(c, n, bit, k);
  }

  lemma {:induction false} BranchComplete(c: Cell, n: nat, path: seq<bool>, k: seq<bool>)
    requires IsTrie(c, n) && |View(c, n).value.0| < n && |k| == n
    requires Lookup(c, k).Ok? && Lookup(c, k).value.Some?
    ensures var part := View(c, n).value.0; var l := |part|;
      part <= k && Lookup(c, k) == Lookup(Child(c, k[l]), k[l + 1..])
  {
    hide ParseLabel;
  }

  /** An iterator over a trie yields exactly its entries, each once, in the order of its mode. */
  lemma {:induction false} IterationIsSortedMap(m: Mode, c: Cell, n: nat, k: seq<bool>, v: Slice)
    requires IsTrie(c, n) && n <= MAX_BIT_LEN && |k| == n
    ensures var t := Walk(m, c, n, [], true);
      && t.error == None && Sorted(m, t.items)
      && (Entry(k, v) in t.items <==> Lookup(c, k) == Ok(Some(v)))
  {
    hide Walk, Lookup, KeyLess;
    WalkGood(m, c, n, []);
    assert [] + k == k && k[0..] == k;
  }

  /** Keys in a sorted list are pairwise different. */
  lemma {:induction false} SortedDistinct(m: Mode, items: seq<Entry>, i: nat, j: nat)
    requires Sorted(m, items) && i < j < |items|
    ensures items[i].key != items[j].key
  {
    assert KeyLess(m, items[i].key, items[j].key);
  }
}
