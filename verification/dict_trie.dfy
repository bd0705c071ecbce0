/** Dictionary tries as cell trees: what they map keys to, and their one canonical form. */
module DictTrie {
  import opened Cells
  import opened Labels
  import opened CellIo
  import CellHash

  /** Label of an edge cell and what follows it; exotic cells cannot be read. */
  function View(c: Cell, n: nat): Result<(seq<bool>, seq<bool>), DictError> {
    if c.exotic then Err(UnexpectedExoticCell) else ParseLabel(c.bits, n)
  }

  function Child(c: Cell, bit: bool): Cell
    requires |c.refs| >= 2
  {
    c.refs[if bit then 1 else 0]
  }

  /** The value stored for a key, found by walking down the trie. */
  function Lookup(c: Cell, key: seq<bool>): Result<Option<Slice>, DictError>
    decreases c
  {
    match View(c, |key|)
    case Err(e) => Err(e)
    case Ok((part, rest)) =>
      if part <= key then
        if |part| == |key| then Ok(Some(Slice(rest, c.refs)))
        else if |c.refs| < 2 then Ok(None)
        else Lookup(Child(c, key[|part|]), key[|part| + 1..])
      else if key == [] then Ok(Some(Slice(rest, c.refs)))
      else Ok(None)
  }

  /** A tree of edges in which every path spells exactly `n` key bits. */
  predicate IsTrie(c: Cell, n: nat)
    decreases c
  {
    match View(c, n)
    case Err(_) => false
    case Ok((part, rest)) =>
      |part| <= n && (|part| < n ==>
        |c.refs| >= 2 && IsTrie(c.refs[0], n - |part| - 1) && IsTrie(c.refs[1], n - |part| - 1))
  }

  /** The trie that the dictionary operations build: shortest labels, forks with nothing but two edges. */
  predicate Canonical(c: Cell, n: nat)
    decreases c
  {
    && n <= MAX_BIT_LEN
    && BuildOrdinary(c.bits, c.refs) == Ok(c)
    && match View(c, n)
       case Err(_) => false
       case Ok((part, rest)) =>
         && |part| <= n
         && LabelCode(part, n).Ok? && c.bits == LabelCode(part, n).value + rest
         && (|part| < n ==>
              rest == [] && |c.refs| == 2
              && Canonical(c.refs[0], n - |part| - 1) && Canonical(c.refs[1], n - |part| - 1))
  }

  /** An edge cell: a label when `n` key bits remain, then data and references. */
  function EdgeCell(part: seq<bool>, n: nat, bits: seq<bool>, refs: seq<Cell>): Result<Cell, DictError> {
    match LabelCode(part, n)
    case Err(e) => Err(e)
    case Ok(code) => BuildOrdinary(code + bits, refs)
  }

  lemma {:induction false} EdgeCellView(part: seq<bool>, n: nat, bits: seq<bool>, refs: seq<Cell>)
    requires |part| <= n <= MAX_BIT_LEN && EdgeCell(part, n, bits, refs).Ok?
    ensures var c := EdgeCell(part, n, bits, refs).value;
      && View(c, n) == Ok((part, bits)) && c.refs == refs
      && BuildOrdinary(c.bits, c.refs) == Ok(c) && c.bits == LabelCode(part, n).value + bits
  {
    LabelRoundTrip(part, n, bits);
  }

  lemma {:induction false} CanonicalIsTrie(c: Cell, n: nat)
    requires Canonical(c, n)
    ensures IsTrie(c, n)
    decreases c
  {
    hide ParseLabel, LabelCode, BuildOrdinary;
    var (part, rest) := View(c, n).value;
    if |part| < n {
      CanonicalIsTrie(c.refs[0], n - |part| - 1);
      CanonicalIsTrie(c.refs[1], n - |part| - 1);
    }
  }

  lemma {:induction false} LookupDefined(c: Cell, key: seq<bool>)
    requires IsTrie(c, |key|)
    ensures Lookup(c, key).Ok?
    decreases c
  {
    hide ParseLabel;
    var (part, rest) := View(c, |key|).value;
    if part <= key && |part| < |key| {
      LookupDefined(Child(c, key[|part|]), key[|part| + 1..]);
    }
  }

  // ---------------------------------------------------------------- dictionaries: a trie or nothing

  predicate IsDict(root: Option<Cell>, n: nat) { root.None? || IsTrie(root.value, n) }

  /** The value a dictionary holds for a key. */
  function LookupRoot(root: Option<Cell>, k: seq<bool>): Option<Slice> {
    if root.Some? && Lookup(root.value, k).Ok? then Lookup(root.value, k).value else None
  }

  /** The first key of a trie. */
  function FirstKey(c: Cell, n: nat): (key: seq<bool>)
    requires IsTrie(c, n)
    ensures |key| == n
    decreases c
  {
    var (part, rest) := View(c, n).value;
    if |part| == n then part else part + [false] + FirstKey(c.refs[0], n - |part| - 1)
  }

  /** Walking down one fork spells the label and the branch bit. */
  lemma {:induction false} LookupStep(c: Cell, n: nat, bit: bool, key: seq<bool>)
    requires IsTrie(c, n) && |View(c, n).value.0| + 1 + |key| == n
    ensures Lookup(c, View(c, n).value.0 + [bit] + key) == Lookup(Child(c, bit), key)
  {
    hide ParseLabel;
    var part := View(c, n).value.0;
    var whole := part + [bit] + key;
    assert part <= whole && whole[|part|] == bit && whole[|part| + 1..] == key;
  }

  lemma {:induction false} FirstKeyFound(c: Cell, n: nat)
    requires IsTrie(c, n)
    ensures Lookup(c, FirstKey(c, n)).Ok? && Lookup(c, FirstKey(c, n)).value.Some?
    decreases c
  {
    hide ParseLabel;
    var part := View(c, n).value.0;
    if |part| < n {
      FirstKeyFound(c.refs[0], n - |part| - 1);
      LookupStep(c, n, false, FirstKey(c.refs[0], n - |part| - 1));
    }
  }

  /** A trie holds some key whose bit behind the root label is `bit`. */
  lemma {:induction false} ForkKey(c: Cell, n: nat, bit: bool) returns (key: seq<bool>)
    requires IsTrie(c, n) && |View(c, n).value.0| < n
    ensures |key| == n && View(c, n).value.0 <= key && key[|View(c, n).value.0|] == bit
    ensures Lookup(c, key).Ok? && Lookup(c, key).value.Some?
  {
    hide ParseLabel;
    var part := View(c, n).value.0;
    var below := FirstKey(Child(c, bit), n - |part| - 1);
    FirstKeyFound(Child(c, bit), n - |part| - 1);
    LookupStep(c, n, bit, below);
    key := part + [bit] + below;
  }

  ghost predicate SameEntries(a: Cell, b: Cell, n: nat) {
    forall key: seq<bool> :: |key| == n ==> Lookup(a, key) == Lookup(b, key)
  }

  /** Tries with the same entries start with the same label: `b`'s label is no longer than `a`'s. */
  lemma {:induction false} LabelNoLonger(a: Cell, b: Cell, n: nat)
    requires IsTrie(a, n) && IsTrie(b, n) && SameEntries(a, b, n)
    ensures View(b, n).value.0 <= View(a, n).value.0
  {
    hide ParseLabel;
    var pa, pb := View(a, n).value.0, View(b, n).value.0;
    FirstKeyFound(a, n);
    var key := FirstKey(a, n);
    assert pb <= key;
    if |pa| < |pb| {
      var other := ForkKey(a, n, !pb[|pa|]);
      assert false;
    }
    assert pa <= key;
    assert pa == key[..|pa|] && pb == key[..|pb|];
  }

  /** Two canonical tries with the same entries are the same cell tree. */
  lemma {:induction false} CanonicalUnique(a: Cell, b: Cell, n: nat)
    requires Canonical(a, n) && Canonical(b, n) && SameEntries(a, b, n)
    ensures a == b
    decreases a
  {
    hide ParseLabel, LabelCode, BuildOrdinary;
    CanonicalIsTrie(a, n);
    CanonicalIsTrie(b, n);
    LabelNoLonger(a, b, n);
    LabelNoLonger(b, a, n);
    var (part, ra) := View(a, n).value;
    var rb := View(b, n).value.1;
    assert View(b, n).value.0 == part;
    if |part| == n {
      assert Lookup(a, part) == Ok(Some(Slice(ra, a.refs))) && Lookup(b, part) == Ok(Some(Slice(rb, b.refs)));
    } else {
      forall bit: bool
        ensures Child(a, bit) == Child(b, bit)
      {
        forall key: seq<bool> | |key| == n - |part| - 1
          ensures Lookup(Child(a, bit), key) == Lookup(Child(b, bit), key)
        {
          LookupStep(a, n, bit, key);
          LookupStep(b, n, bit, key);
          assert |part + [bit] + key| == n;
        }
        CanonicalUnique(Child(a, bit), Child(b, bit), n - |part| - 1);
      }
      assert a.refs[0] == Child(a, false) && a.refs[1] == Child(a, true);
      assert b.refs[0] == Child(b, false) && b.refs[1] == Child(b, true);
      assert a.refs == b.refs;
    }
    SameContents(a, b);
  }

  lemma {:induction false} SameContents(a: Cell, b: Cell)
    requires BuildOrdinary(a.bits, a.refs) == Ok(a) && BuildOrdinary(b.bits, b.refs) == Ok(b)
    requires a.bits == b.bits && a.refs == b.refs
    ensures a == b
  {
  }
}
