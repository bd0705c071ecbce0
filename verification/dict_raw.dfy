/** Dictionaries with a mutable root: what setting, replacing, adding and removing do to the map. */
module RawDicts {
  import opened Cells
  import opened Labels
  import opened CellIo
  import opened DictTrie
  import opened DictOps
  import opened DictLaws
  import CellHash

  /** A dictionary with keys of `n` bits; the root cell is replaced by every change. */
  class RawDict {
    const n: nat
    var root: Option<Cell>

    constructor (n: nat)
      ensures this.n == n && root == None
    {
      this.n, root := n, None;
    }

    method Get(key: seq<bool>) returns (r: Result<Option<Slice>, DictError>)
      ensures r ==
        if |key| != n then Err(CellUnderflow) else if root.None? then Ok(None) else Lookup(root.value, key)
      ensures |key| == n && IsDict(root, n) ==> r == Ok(LookupRoot(root, key))
    {
      hide BitLength, UintBits, BitsUint;
      if |key| != n { return Err(CellUnderflow); }
      if root.None? { return Ok(None); }
      if IsDict(root, n) { LookupDefined(root.value, key); }
      var cell, rest := root.value, key;
      while true
        invariant Lookup(cell, rest) == Lookup(root.value, key)
        decreases |rest|
      {
        if cell.exotic { return Err(UnexpectedExoticCell); }
        var data := new CellSlice(Slice(cell.bits, cell.refs));
        var part := ReadLabel(data, |rest|);
        if part.Err? { return Err(part.error); }
        if !(part.value <= rest) {
          return Ok(if rest == [] then Some(Slice(data.bits, data.refs)) else None);
        }
        rest := rest[|part.value|..];
        if rest == [] { return Ok(Some(Slice(data.bits, data.refs))); }
        if |data.refs| < 2 { return Ok(None); }
        cell, rest := Child(cell, rest[0]), rest[1..];
      }
    }

    /** Stores a value; tells whether the dictionary was changed. */
    method Set(sha: CellHash.Sha, key: seq<bool>, value: Slice, mode: SetMode) returns (r: Result<bool, DictError>)
      requires n <= MAX_BIT_LEN
      modifies this`root
      ensures var outcome := SetOutcome(old(root), n, key, value, mode);
        && (outcome.Err? ==> r == Err(outcome.error) && root == old(root))
        && (outcome.Ok? ==> r == Ok(outcome.value.Some?))
        && (outcome.Ok? ==> root == if outcome.value.Some? then outcome.value else old(root))
      ensures |key| != n ==> r == Err(CellUnderflow)
      ensures |key| == n && IsDict(old(root), n) ==>
        && IsDict(root, n)
        && (r == Ok(false) <==> Refused(mode, LookupRoot(old(root), key)))
        && forall k: seq<bool> :: |k| == n ==>
             LookupRoot(root, k) == if r == Ok(true) && k == key then Some(value) else LookupRoot(old(root), k)
    {
      hide ParseLabel, EdgeCell, BuildOrdinary, Lookup, Insert, IsTrie;
      SetMeaning(root, n, key, value, mode);
      if |key| != n { return Err(CellUnderflow); }
      if root.None? {
        if !mode.CanAdd() { return Ok(false); }
        var leaf := MakeEdge(sha, key, n, value);
        if leaf.Err? { return Err(leaf.error); }
        root := Some(leaf.value);
        return Ok(true);
      }
      var changed := InsertInto(sha, root.value, key, value, mode);
      if changed.Err? { return Err(changed.error); }
      if changed.value.None? { return Ok(false); }
      root := changed.value;
      r := Ok(true);
    }

    /** Removes a key; returns the removed value. */
    method RemoveKey(sha: CellHash.Sha, key: seq<bool>) returns (r: Result<Option<Slice>, DictError>)
      requires n <= MAX_BIT_LEN
      modifies this`root
      ensures var outcome := RemoveOutcome(old(root), n, key);
        && (outcome.Err? ==> r == Err(outcome.error) && root == old(root))
        && (outcome.Ok? ==> r == Ok(RemovedValue(outcome.value)) && root == RemainingRoot(old(root), outcome.value))
      ensures |key| != n ==> r == Err(CellUnderflow)
      ensures |key| == n && IsDict(old(root), n) ==>
        && IsDict(root, n)
        && (r.Ok? ==> r.value == LookupRoot(old(root), key))
        && forall k: seq<bool> :: |k| == n ==>
             LookupRoot(root, k) == if r.Ok? && k == key then None else LookupRoot(old(root), k)
    {
      hide ParseLabel, EdgeCell, BuildOrdinary, Lookup, Remove, IsTrie;
      RemovalMeaning(root, n, key);
      if |key| != n { return Err(CellUnderflow); }
      if root.None? { return Ok(None); }
      var removal := RemoveFrom(sha, root.value, key);
      if removal.Err? { return Err(removal.error); }
      match removal.value {
        case NotFound => r := Ok(None);
        case Gone(v) => root := None; r := Ok(Some(v));
        case Left(c, v) => root := Some(c); r := Ok(Some(v));
      }
    }
  }

  /** What storing a value means for a well-formed dictionary. */
  lemma {:induction false} SetMeaning(root: Option<Cell>, n: nat, key: seq<bool>, value: Slice, mode: SetMode)
    requires n <= MAX_BIT_LEN
    ensures |key| == n && IsDict(root, n) ==>
      var outcome := SetOutcome(root, n, key, value, mode);
      && (outcome == Ok(None) <==> Refused(mode, LookupRoot(root, key)))
      && (outcome.Ok? && outcome.value.Some? ==> IsDict(outcome.value, n))
      && (outcome.Ok? && outcome.value.Some? ==>
            forall k: seq<bool> :: |k| == n ==>
              LookupRoot(outcome.value, k) == if k == key then Some(value) else LookupRoot(root, k))
  {
    hide ParseLabel, EdgeCell, BuildOrdinary, Lookup, Insert, IsTrie;
    if |key| == n && IsDict(root, n) {
      var outcome := SetOutcome(root, n, key, value, mode);
      if root.Some? { ModeMeaning(root.value, key, value); }
      if outcome.Ok? && outcome.value.Some? {
        forall k: seq<bool> | |k| == n
          ensures IsDict(outcome.value, n)
          ensures LookupRoot(outcome.value, k) == if k == key then Some(value) else LookupRoot(root, k)
        {
          if root.Some? {
            InsertMeaning(root.value, key, value, mode, k);
          } else {
            EdgeCellView(key, n, value.bits, value.refs);
            LeafIsTrie(outcome.value.value, key);
            LeafLookup(outcome.value.value, key, k);
          }
        }
        assert IsDict(outcome.value, n) by { assert |key| == n; }
      }
    }
  }

  /** What removing a key means for a well-formed dictionary. */
  lemma {:induction false} RemovalMeaning(root: Option<Cell>, n: nat, key: seq<bool>)
    requires n <= MAX_BIT_LEN
    ensures |key| == n && IsDict(root, n) && RemoveOutcome(root, n, key).Ok? ==>
      var removal := RemoveOutcome(root, n, key).value;
      && IsDict(RemainingRoot(root, removal), n) && RemovedValue(removal) == LookupRoot(root, key)
      && forall k: seq<bool> :: |k| == n ==>
           LookupRoot(RemainingRoot(root, removal), k) == if k == key then None else LookupRoot(root, k)
  {
    hide ParseLabel, EdgeCell, BuildOrdinary, Lookup, Remove, IsTrie;
    if |key| == n && IsDict(root, n) && RemoveOutcome(root, n, key).Ok? && root.Some? {
      var removal := RemoveOutcome(root, n, key).value;
      RemoveMeaning(root.value, key, key);
      forall k: seq<bool> | |k| == n
        ensures LookupRoot(RemainingRoot(root, removal), k) == if k == key then None else LookupRoot(root, k)
      {
        RemoveMeaning(root.value, key, k);
      }
    }
  }
}
