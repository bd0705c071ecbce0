/** Iterating over two dictionaries at once. */
module DictUnion {
  import opened Cells
  import opened Labels
  import opened BitOrder
  import opened DictTrie
  import opened DictIter
  import opened DictOrder

  datatype UnionEntry = UnionEntry(key: seq<bool>, left: Option<Slice>, right: Option<Slice>)

  /** The comparison that decides which side goes first: signs of different keys turn it around. */
  function KeyCmp(m: Mode, a: seq<bool>, b: seq<bool>): Ordering {
    var leftNegative, rightNegative := a != [] && a[0], b != [] && b[0];
    var reversed := m.reversed != (m.signed && leftNegative != rightNegative);
    if reversed then LexCmp(a, b).Reverse() else LexCmp(a, b)
  }

  /** On keys of one length this is the order in which each side is iterated. */
  lemma {:induction false} KeyCmpIsOrder(m: Mode, a: seq<bool>, b: seq<bool>)
    requires |a| == |b|
    ensures KeyCmp(m, a, b) == Less <==> KeyLess(m, a, b)
    ensures KeyCmp(m, a, b) == Greater <==> KeyLess(m, b, a)
    ensures KeyCmp(m, a, b) == Equal <==> a == b
  {
    CommonPrefixSymmetric(a, b);
    var i := CommonPrefix(a, b);
    if i == |a| { assert a == a[..i] && b == b[..i]; }
  }

  /** The first entry of the union of two lists, and what is left of them. */
  function MergeStep(m: Mode, ls: seq<Entry>, rs: seq<Entry>): (UnionEntry, seq<Entry>, seq<Entry>)
    requires ls != [] || rs != []
  {
    if rs == [] then (UnionEntry(ls[0].key, Some(ls[0].value), None), ls[1..], rs)
    else if ls == [] then (UnionEntry(rs[0].key, None, Some(rs[0].value)), ls, rs[1..])
    else
      match KeyCmp(m, ls[0].key, rs[0].key)
      case Less => (UnionEntry(ls[0].key, Some(ls[0].value), None), ls[1..], rs)
      case Greater => (UnionEntry(rs[0].key, None, Some(rs[0].value)), ls, rs[1..])
      case Equal => (UnionEntry(ls[0].key, Some(ls[0].value), Some(rs[0].value)), ls[1..], rs[1..])
  }

  function Merge(m: Mode, ls: seq<Entry>, rs: seq<Entry>): seq<UnionEntry>
    decreases |ls| + |rs|
  {
    if ls == [] && rs == [] then []
    else
      var (e, ls', rs') := MergeStep(m, ls, rs);
      [e] + Merge(m, ls', rs')
  }

  class UnionRawIter {
    const left: RawIter
    const right: RawIter
    var leftPeeked: Option<Entry>
    var leftFinished: bool
    var rightPeeked: Option<Entry>
    var rightFinished: bool

    ghost predicate Inv()
      reads this, left, right
    {
      && left != right && left.mode == right.mode
      && left.Inv() && right.Inv()
      && (leftFinished ==> left.Rest() == DONE)
      && (rightFinished ==> right.Rest() == DONE)
      && (left.status.UnexpectedCell? ==> leftPeeked.None?)
      && (right.status.UnexpectedCell? ==> rightPeeked.None?)
      && (left.status.Broken? <==> right.status.Broken?)
    }

    ghost predicate Ended()
      reads this, left, right
    {
      left.status.Broken? || right.status.Broken?
    }

    ghost function LeftRest(): Trace
      reads this, left, right
      requires Inv()
    {
      if Ended() then DONE else Peeked(leftPeeked, left.Rest())
    }

    ghost function RightRest(): Trace
      reads this, left, right
      requires Inv()
    {
      if Ended() then DONE else Peeked(rightPeeked, right.Rest())
    }

    constructor (leftRoot: Option<Cell>, rightRoot: Option<Cell>, n: nat, mode: Mode)
      ensures Inv() && fresh(left) && fresh(right) && left.mode == mode
      ensures LeftRest() == RootTrace(mode, leftRoot, n) && RightRest() == RootTrace(mode, rightRoot, n)
    {
      left := new RawIter(leftRoot, n, mode);
      right := new RawIter(rightRoot, n, mode);
      leftPeeked, rightPeeked, leftFinished, rightFinished := None, None, false, false;
    }

    /** What is left is the given remainders, unless an error ended the iteration. */
    ghost predicate Leaves(ls: Trace, rs: Trace)
      reads this, left, right
      requires Inv()
    {
      !Ended() && LeftRest() == ls && RightRest() == rs
    }

    /** Produces the next key of either side with the values both sides hold for it. */
    method Next() returns (r: Option<Result<UnionEntry, DictError>>)
      requires Inv()
      modifies this, left, right
      ensures Inv()
      ensures old(Ended()) ==> r == None
      ensures var ls, rs := old(LeftRest()), old(RightRest());
        !old(Ended()) ==>
        if (ls.items == [] && ls.error.Some?) || (rs.items == [] && rs.error.Some?) then
          && r.Some? && r.value.Err? && Ended()
          && (Some(r.value.error) == ls.error || Some(r.value.error) == rs.error)
        else if ls.items == [] && rs.items == [] then r == None && Leaves(ls, rs)
        else
          var (e, ls', rs') := MergeStep(left.mode, ls.items, rs.items);
          r == Some(Ok(e)) && Leaves(Trace(ls', ls.error), Trace(rs', rs.error))
    {
      hide Walk, ParseLabel, Pending, KeyCmp;
      if left.status != Valid || right.status != Valid {
        if left.status != UnexpectedCell && right.status != UnexpectedCell { return None; }
        left.status, right.status := Broken, Broken;
        return Some(Err(UnexpectedExoticCell));
      }
      var peeked := PeekBoth();
      if peeked.Err? { return Some(Err(peeked.error)); }
      if leftPeeked.None? && rightPeeked.None? { return None; }
      ghost var ls, rs := LeftRest(), RightRest();
      MergeHeads(left.mode, leftPeeked, rightPeeked, ls.items, rs.items);
      var e := MergeStep(left.mode, Optional(leftPeeked), Optional(rightPeeked)).0;
      if e.left.Some? { leftPeeked := None; }
      if e.right.Some? { rightPeeked := None; }
      return Some(Ok(e));
    }

    /** Fills both peeked slots; an error on either side ends the whole iteration. */
    method PeekBoth() returns (r: Result<(), DictError>)
      requires Inv() && left.status.Valid? && right.status.Valid?
      modifies this, left, right
      ensures Inv()
      ensures var ls, rs := old(LeftRest()), old(RightRest());
        && (r.Err? <==> (ls.items == [] && ls.error.Some?) || (rs.items == [] && rs.error.Some?))
        && (r.Err? ==> Ended() && (Some(r.error) == ls.error || Some(r.error) == rs.error))
        && (r.Ok? ==> left.status.Valid? && right.status.Valid? && Leaves(ls, rs))
        && (r.Ok? ==> leftPeeked == (if ls.items == [] then None else Some(ls.items[0])))
        && (r.Ok? ==> rightPeeked == (if rs.items == [] then None else Some(rs.items[0])))
    {
      hide Walk, ParseLabel, Pending;
      var l, r';
      l, leftFinished, leftPeeked := Peek(left, leftFinished, leftPeeked);
      if l.Err? {
        left.status, right.status := Broken, Broken;
        return Err(l.error);
      }
      r', rightFinished, rightPeeked := Peek(right, rightFinished, rightPeeked);
      if r'.Err? {
        left.status, right.status := Broken, Broken;
        return Err(r'.error);
      }
      r := Ok(());
    }
  }

  /** One step of the merge looks at the heads of the lists only. */
  lemma {:induction false} MergeHeads(m: Mode, l: Option<Entry>, r: Option<Entry>, ls: seq<Entry>, rs: seq<Entry>)
    requires l == (if ls == [] then None else Some(ls[0])) && r == (if rs == [] then None else Some(rs[0]))
    requires l.Some? || r.Some?
    ensures MergeStep(m, Optional(l), Optional(r)).0 == MergeStep(m, ls, rs).0
    ensures var (e, ls', rs') := MergeStep(m, ls, rs);
      && ls' == (if e.left.Some? then ls[1..] else ls) && (e.left.Some? ==> ls != [])
      && rs' == (if e.right.Some? then rs[1..] else rs) && (e.right.Some? ==> rs != [])
  {
    hide KeyCmp;
  }

  function Optional(e: Option<Entry>): seq<Entry> { if e.Some? then [e.value] else [] }

  /** Looks at the next entry of one side, asking its iterator only when nothing was peeked yet. */
  method Peek(iter: RawIter, finished: bool, peeked: Option<Entry>)
    returns (r: Result<Option<Entry>, DictError>, finished': bool, peeked': Option<Entry>)
    requires iter.Inv() && iter.status.Valid? && (finished ==> iter.Rest() == DONE)
    modifies iter
    ensures iter.Inv() && (finished' ==> iter.Rest() == DONE)
    ensures var before := Peeked(peeked, old(iter.Rest()));
      && (r.Ok? ==> r.value == peeked' && iter.status.Valid? && Peeked(peeked', iter.Rest()) == before)
      && (r.Ok? ==> r.value == (if before.items == [] then None else Some(before.items[0])))
      && (before.items == [] && before.error.Some? <==> r.Err?)
      && (r.Err? ==> Some(r.error) == before.error)
  {
    hide Walk, ParseLabel, Pending;
    finished', peeked' := finished, peeked;
    if !finished && peeked.None? {
      ghost var before := iter.Rest();
      var next := iter.Next();
      match next {
        case Some(Ok(e)) =>
          peeked' := Some(e);
          assert before.items == [e] + before.items[1..];
        case Some(Err(e)) =>
          finished' := true;
          r := Err(e);
          return;
        case None => finished' := true;
      }
    }
    r := Ok(peeked');
  }

  /** A peeked entry goes before the rest. */
  function Peeked(p: Option<Entry>, t: Trace): Trace {
    if p.Some? then Trace([p.value] + t.items, t.error) else t
  }

  function RootTrace(mode: Mode, root: Option<Cell>, n: nat): Trace {
    if root.None? then DONE
    else if root.value.exotic then Failure(UnexpectedExoticCell)
    else Walk(mode, root.value, n, [], true)
  }
}
