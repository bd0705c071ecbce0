/** Iterating over a dictionary trie with an explicit stack of edges. */
module DictIter {
  import opened Cells
  import opened Labels
  import opened CellIo
  import opened DictTrie

  datatype Entry = Entry(key: seq<bool>, value: Slice)

  /** What an iteration produces: entries, and possibly an error that ends it. */
  datatype Trace = Trace(items: seq<Entry>, error: Option<DictError>)

  const DONE := Trace([], None)

  function Failure(e: DictError): Trace { Trace([], Some(e)) }

  /** One iteration after another; an error in the first cuts off the second. */
  function Then(a: Trace, b: Trace): Trace {
    if a.error.Some? then a else Trace(a.items + b.items, b.error)
  }

  /** Direction of an iteration, and whether keys are read as two's complement numbers. */
  datatype Mode = Mode(reversed: bool, signed: bool) {
    /** The branch that comes first at a fork; the sign bit is the first bit of an unlabelled root. */
    function First(signBit: bool): bool { reversed != (signed && signBit) }
  }

  /** Everything below an edge, when `n` key bits remain and `path` was spelled on the way. */
  function Walk(m: Mode, c: Cell, n: nat, path: seq<bool>, isRoot: bool): Trace
    decreases c, 1
  {
    var parsed := ParseLabel(c.bits, n);
    if parsed.Err? then Failure(parsed.error)
    else
      var (part, rest) := parsed.value;
      if |part| > n then Failure(CellUnderflow)
      else if |part| < n && |c.refs| < 2 then Failure(CellUnderflow)
      else if |path + part| > MAX_BIT_LEN then Failure(CellOverflow)
      else if |part| == n then Trace([Entry(path + part, Slice(rest, c.refs))], None)
      else
        var first := m.First(isRoot && part == []);
        Then(WalkChild(m, c, first, n - |part| - 1, path + part), WalkChild(m, c, !first, n - |part| - 1, path + part))
  }

  /** Everything below one branch of a fork. */
  function WalkChild(m: Mode, c: Cell, bit: bool, n: nat, path: seq<bool>): Trace
    requires |c.refs| >= 2
    decreases c, 0
  {
    if Child(c, bit).exotic then Failure(UnexpectedExoticCell)
    else if |path| + 1 > MAX_BIT_LEN then Failure(CellOverflow)
    else Walk(m, Child(c, bit), n, path + [bit], false)
  }

  /** An edge on the stack: how many of its branches were entered, and its label once it was read. */
  datatype IterSegment = IterSegment(cell: Cell, visited: nat, remaining: nat, prefix: Option<seq<bool>>)

  datatype Status = Valid | UnexpectedCell | Broken

  // ---------------------------------------------------------------- what a stack still has to produce

  /** The stack without its last segment. */
  function Below(segments: seq<IterSegment>): seq<IterSegment>
    requires segments != []
  {
    segments[..|segments| - 1]
  }

  function Last(segments: seq<IterSegment>): IterSegment
    requires segments != []
  {
    segments[|segments| - 1]
  }

  function FirstBit(m: Mode, segments: seq<IterSegment>): bool
    requires segments != [] && Last(segments).prefix.Some?
  {
    m.First(|segments| == 1 && Last(segments).prefix.value == [])
  }

  /** The branch entered last: the first one, then the other. */
  function EnteredBit(m: Mode, segments: seq<IterSegment>): bool
    requires segments != [] && Last(segments).prefix.Some?
  {
    FirstBit(m, segments) != (Last(segments).visited == 2)
  }

  /** Labels and branch bits of the segments before the last one, with the bit that leads to it. */
  function PathBefore(m: Mode, segments: seq<IterSegment>): seq<bool>
    requires segments != [] && AllRead(Below(segments))
    decreases |segments|, 0
  {
    if |segments| == 1 then []
    else PathOf(m, Below(segments)) + [EnteredBit(m, Below(segments))]
  }

  /** The key bits spelled by the whole stack. */
  function PathOf(m: Mode, segments: seq<IterSegment>): seq<bool>
    requires segments != [] && AllRead(segments)
    decreases |segments|, 1
  {
    PathBefore(m, segments) + Last(segments).prefix.value
  }

  predicate AllRead(segments: seq<IterSegment>) {
    forall i :: 0 <= i < |segments| ==> segments[i].prefix.Some?
  }

  /** A segment whose label was read is a fork with that label. */
  predicate ReadFork(s: IterSegment) {
    s.prefix.Some? ==>
      && |s.cell.refs| >= 2 && s.visited <= 2
      && var n := s.remaining + 1 + |s.prefix.value|;
         ParseLabel(s.cell.bits, n).Ok? && ParseLabel(s.cell.bits, n).value.0 == s.prefix.value
  }

  /** Segments below the last one are forks with an entered branch. */
  predicate Stacked(segments: seq<IterSegment>) {
    && (forall i :: 0 <= i < |segments| ==> ReadFork(segments[i]))
    && (forall i :: 0 <= i < |segments| - 1 ==> segments[i].prefix.Some? && 1 <= segments[i].visited)
  }

  /** What the last segment still has to produce. */
  function Here(m: Mode, segments: seq<IterSegment>): Trace
    requires segments != [] && Stacked(segments)
  {
    var s := Last(segments);
    if s.prefix.None? then Walk(m, s.cell, s.remaining, PathBefore(m, segments), |segments| == 1)
    else
      var first, path := FirstBit(m, segments), PathOf(m, segments);
      if s.visited == 0 then
        Then(WalkChild(m, s.cell, first, s.remaining, path), WalkChild(m, s.cell, !first, s.remaining, path))
      else if s.visited == 1 then WalkChild(m, s.cell, !first, s.remaining, path)
      else DONE
  }

  function Pending(m: Mode, segments: seq<IterSegment>): Trace
    requires Stacked(segments)
    decreases |segments|
  {
    if segments == [] then DONE else Then(Here(m, segments), Pending(m, Below(segments)))
  }

  lemma {:induction false} ThenAssociative(a: Trace, b: Trace, c: Trace)
    ensures Then(Then(a, b), c) == Then(a, Then(b, c))
  {
    if a.error.None? && b.error.None? {
      assert a.items + b.items + c.items == a.items + (b.items + c.items);
    }
  }

  lemma {:induction false} ThenDone(a: Trace)
    ensures Then(DONE, a) == a && Then(a, DONE) == a
  {
    assert [] + a.items == a.items && a.items + [] == a.items;
  }

  // ---------------------------------------------------------------- moves of the stack

  /** Leaving a finished fork changes nothing that is still to come. */
  lemma {:induction false} PopFinished(m: Mode, segments: seq<IterSegment>)
    requires segments != [] && Stacked(segments)
    requires Last(segments).prefix.Some? && Last(segments).visited == 2
    ensures Stacked(Below(segments)) && Pending(m, segments) == Pending(m, Below(segments))
    ensures |segments| > 1 ==>
      PathOf(m, segments) == PathOf(m, Below(segments)) + [EnteredBit(m, Below(segments))] + Last(segments).prefix.value
  {
    hide Walk, ParseLabel;
    ThenDone(Pending(m, Below(segments)));
  }

  /** The stack after entering the next branch of its last segment. */
  function Entered(m: Mode, segments: seq<IterSegment>, bit: bool): seq<IterSegment>
    requires segments != [] && |Last(segments).cell.refs| >= 2
  {
    var s := Last(segments);
    Below(segments) + [s.(visited := s.visited + 1), IterSegment(Child(s.cell, bit), 0, s.remaining, None)]
  }

  lemma {:induction false} EnterBranch(m: Mode, segments: seq<IterSegment>, bit: bool)
    requires segments != [] && Stacked(segments) && Last(segments).prefix.Some? && Last(segments).visited < 2
    requires bit == (FirstBit(m, segments) != (Last(segments).visited == 1))
    ensures Stacked(Entered(m, segments, bit))
    ensures PathBefore(m, Entered(m, segments, bit)) == PathOf(m, segments) + [bit]
    ensures Child(Last(segments).cell, bit).exotic ==>
      Pending(m, segments) == Failure(UnexpectedExoticCell)
    ensures !Child(Last(segments).cell, bit).exotic && |PathOf(m, segments)| + 1 > MAX_BIT_LEN ==>
      Pending(m, segments) == Failure(CellOverflow)
    ensures !Child(Last(segments).cell, bit).exotic && |PathOf(m, segments)| + 1 <= MAX_BIT_LEN ==>
      Pending(m, segments) == Pending(m, Entered(m, segments, bit))
  {
    hide Walk, ParseLabel;
    var s, path := Last(segments), PathOf(m, segments);
    var entered := Entered(m, segments, bit);
    var forked := Forked(segments);
    MarkBranch(m, segments, bit);
    assert Below(entered) == forked;
    assert PathBefore(m, entered) == path + [bit];
  }

  /** The stack after noting that the next branch of its last segment was entered. */
  function Forked(segments: seq<IterSegment>): seq<IterSegment>
    requires segments != []
  {
    Below(segments) + [Last(segments).(visited := Last(segments).visited + 1)]
  }

  lemma {:induction false} MarkBranch(m: Mode, segments: seq<IterSegment>, bit: bool)
    requires segments != [] && Stacked(segments) && Last(segments).prefix.Some? && Last(segments).visited < 2
    requires bit == (FirstBit(m, segments) != (Last(segments).visited == 1))
    ensures var s, path, forked := Last(segments), PathOf(m, segments), Forked(segments);
      && Stacked(forked) && AllRead(forked) && PathOf(m, forked) == path && EnteredBit(m, forked) == bit
      && Pending(m, segments) == Then(WalkChild(m, s.cell, bit, s.remaining, path), Pending(m, forked))
  {
    hide Walk, WalkChild, ParseLabel;
    var s, path, forked := Last(segments), PathOf(m, segments), Forked(segments);
    assert Below(forked) == Below(segments);
    assert forall i :: 0 <= i < |forked| ==> ReadFork(forked[i]) && forked[i].prefix.Some?;
    assert PathBefore(m, forked) == PathBefore(m, segments);
    var here, rest := WalkChild(m, s.cell, bit, s.remaining, path), Pending(m, Below(segments));
    if s.visited == 0 {
      ThenAssociative(here, WalkChild(m, s.cell, !bit, s.remaining, path), rest);
    } else {
      ThenDone(rest);
    }
  }

  /** The stack after reading the label of its last segment as a fork. */
  function Opened(segments: seq<IterSegment>, part: seq<bool>): seq<IterSegment>
    requires segments != [] && |part| < Last(segments).remaining
  {
    var s := Last(segments);
    Below(segments) + [s.(prefix := Some(part), remaining := s.remaining - |part| - 1)]
  }

  lemma {:induction false} OpenFork(m: Mode, segments: seq<IterSegment>, part: seq<bool>, rest: seq<bool>)
    requires segments != [] && Stacked(segments) && Last(segments).prefix.None? && Last(segments).visited == 0
    requires ParseLabel(Last(segments).cell.bits, Last(segments).remaining) == Ok((part, rest))
    requires |part| < Last(segments).remaining && |Last(segments).cell.refs| >= 2
    requires |PathBefore(m, segments) + part| <= MAX_BIT_LEN
    ensures Stacked(Opened(segments, part)) && Pending(m, Opened(segments, part)) == Pending(m, segments)
    ensures PathOf(m, Opened(segments, part)) == PathBefore(m, segments) + part
    ensures Opened(segments, part) != [] && Last(Opened(segments, part)) ==
      Last(segments).(prefix := Some(part), remaining := Last(segments).remaining - |part| - 1)
  {
    hide ParseLabel, WalkChild;
    var fork := Opened(segments, part);
    assert Below(fork) == Below(segments);
    assert PathBefore(m, fork) == PathBefore(m, segments);
    assert Here(m, fork) == Here(m, segments);
  }

  lemma {:induction false} PendingEmpty(m: Mode)
    ensures Pending(m, []) == DONE
  {
  }

  lemma {:induction false} DropRead(m: Mode, segments: seq<IterSegment>)
    requires segments != [] && Stacked(segments)
    ensures Stacked(Below(segments)) && AllRead(Below(segments))
    ensures |segments| > 1 ==>
      && Below(segments) != [] && Last(Below(segments)).prefix.Some?
      && PathBefore(m, segments) == PathOf(m, Below(segments)) + [EnteredBit(m, Below(segments))]
  {
    hide Walk, ParseLabel;
  }

  /** Reading a label that completes a key, or failing to read one. */
  lemma {:induction false} ReadLeaf(m: Mode, segments: seq<IterSegment>)
    requires segments != [] && Stacked(segments) && Last(segments).prefix.None?
    ensures var s := Last(segments); var parsed := ParseLabel(s.cell.bits, s.remaining); var path := PathBefore(m, segments);
      && (parsed.Err? ==> Pending(m, segments) == Failure(parsed.error))
      && (parsed.Ok? ==> var (part, rest) := parsed.value;
           && (|part| > s.remaining || (|part| < s.remaining && |s.cell.refs| < 2) ==>
                Pending(m, segments) == Failure(CellUnderflow))
           && (|part| == s.remaining || (|part| < s.remaining && |s.cell.refs| >= 2) ==>
                |path + part| > MAX_BIT_LEN ==> Pending(m, segments) == Failure(CellOverflow))
           && (|part| == s.remaining && |path + part| <= MAX_BIT_LEN ==>
                Pending(m, segments) ==
                Then(Trace([Entry(path + part, Slice(rest, s.cell.refs))], None), Pending(m, Below(segments)))))
  {
    hide ParseLabel, WalkChild;
  }

  // ---------------------------------------------------------------- the iterator

  class RawIter {
    const mode: Mode
    var segments: seq<IterSegment>
    var builder: seq<bool>
    var status: Status

    /** Between two calls the builder spells exactly the stack. */
    ghost predicate Inv()
      reads this
    {
      status.Valid? ==>
        && Stacked(segments)
        && (segments != [] ==>
             if Last(segments).prefix.None? then Last(segments).visited == 0 && builder == PathBefore(mode, segments)
             else builder == PathOf(mode, segments))
    }

    /** What the iterator will still produce. */
    ghost function Rest(): Trace
      reads this
      requires Inv()
    {
      match status
      case Valid => Pending(mode, segments)
      case UnexpectedCell => Failure(UnexpectedExoticCell)
      case Broken => DONE
    }

    constructor (root: Option<Cell>, n: nat, mode: Mode)
      ensures Inv() && this.mode == mode
      ensures status == if root.Some? && root.value.exotic then UnexpectedCell else Valid
      ensures Rest() ==
        if root.None? then DONE
        else if root.value.exotic then Failure(UnexpectedExoticCell)
        else Walk(mode, root.value, n, [], true)
    {
      this.mode, builder, status := mode, [], Valid;
      segments := [];
      if root.Some? {
        if root.value.exotic {
          status := UnexpectedCell;
        } else {
          segments := [IterSegment(root.value, 0, n, None)];
        }
      }
      new;
      if root.Some? && !root.value.exotic {
        assert Below(segments) == [] && Pending(mode, segments) == Then(Here(mode, segments), Pending(mode, []));
        ThenDone(Walk(mode, root.value, n, [], true));
      }
    }

    /** Leaves finished forks and enters the next branch; the segment to be read is then the last one. */
    method Select() returns (r: Result<bool, DictError>)
      requires status == Valid && Inv()
      modifies this`segments, this`builder
      ensures Stacked(segments)
      ensures r.Err? ==> old(Pending(mode, segments)) == Failure(r.error)
      ensures r.Ok? ==> Pending(mode, segments) == old(Pending(mode, segments))
      ensures r == Ok(false) ==> segments == []
      ensures r == Ok(true) ==> segments != [] && Last(segments).prefix.None? && Last(segments).visited == 0
      ensures r == Ok(true) ==> builder == PathBefore(mode, segments)
      ensures r == Ok(true) && old(segments) != [] && old(Last(segments)).prefix.Some? && old(Last(segments)).visited == 0 ==>
        Last(segments).remaining == old(Last(segments)).remaining
    {
      hide Walk, WalkChild, ParseLabel, Pending, PathOf, PathBefore;
      var toRewind := 0;
      while true
        invariant Stacked(segments) && Pending(mode, segments) == old(Pending(mode, segments))
        invariant builder == old(builder) && (segments != [] && Last(segments).prefix.None? ==> segments == old(segments))
        invariant segments != [] && Last(segments).prefix.None? ==> toRewind == 0
        invariant segments != [] && Last(segments).prefix.Some? ==>
          |builder| == |PathOf(mode, segments)| + toRewind && PathOf(mode, segments) <= builder
        invariant segments == old(segments)
          || (old(segments) != [] && old(Last(segments)).prefix.Some? && old(Last(segments)).visited == 2)
        decreases |segments|
      {
        if segments == [] { return Ok(false); }
        var segment := Last(segments);
        if segment.prefix.None? { return Ok(true); }
        if segment.visited < 2 {
          var isRoot := |segments| == 1;
          var bit := ((segment.visited != 0) != mode.reversed) != (mode.signed && isRoot && segment.prefix.value == []);
          EnterBranch(mode, segments, bit);
          var child := Child(segment.cell, bit);
          if child.exotic { return Err(UnexpectedExoticCell); }
          builder := builder[..|builder| - toRewind];
          if |builder| + 1 > MAX_BIT_LEN { return Err(CellOverflow); }
          builder := builder + [bit];
          segments := Entered(mode, segments, bit);
          return Ok(true);
        }
        PopFinished(mode, segments);
        toRewind := toRewind + |segment.prefix.value|;
        segments := Below(segments);
        toRewind := toRewind + if segments != [] then 1 else 0;
      }
    }

    /** Reads the label of the last segment: a leaf is taken off the stack, a fork is opened. */
    method TakeLabel() returns (r: Result<Option<Entry>, DictError>)
      requires status == Valid && Stacked(segments) && segments != []
      requires Last(segments).prefix.None? && Last(segments).visited == 0 && builder == PathBefore(mode, segments)
      modifies this`segments, this`builder
      ensures r.Err? ==> old(Pending(mode, segments)) == Failure(r.error)
      ensures r.Ok? ==> Inv()
      ensures r.Ok? && r.value.Some? ==>
        old(Pending(mode, segments)) == Then(Trace([r.value.value], None), Pending(mode, segments))
      ensures r == Ok(None) ==> Pending(mode, segments) == old(Pending(mode, segments))
      ensures r == Ok(None) ==>
        (segments != [] && Last(segments).prefix.Some? && Last(segments).visited == 0
         && Last(segments).remaining < old(Last(segments).remaining))
    {
      hide Walk, WalkChild, ParseLabel, Pending, PathOf, PathBefore, Opened, Stacked, EnteredBit, BitLength, CommonPrefix;
      var segment := Last(segments);
      var data := new CellSlice(Slice(segment.cell.bits, segment.cell.refs));
      var parsed := ReadLabel(data, segment.remaining);
      ReadLeaf(mode, segments);
      if parsed.Err? { return Err(parsed.error); }
      var part := parsed.value;
      if |part| > segment.remaining || (|part| < segment.remaining && |segment.cell.refs| < 2) {
        return Err(CellUnderflow);
      }
      if |builder| + |part| > MAX_BIT_LEN { return Err(CellOverflow); }
      if |part| == segment.remaining {
        var key := builder + part;
        DropRead(mode, segments);
        segments := Below(segments);
        if segments != [] {
          builder := builder[..|builder| - 1];
        }
        return Ok(Some(Entry(key, Slice(data.bits, data.refs))));
      }
      OpenFork(mode, segments, part, data.bits);
      builder := builder + part;
      segments := Opened(segments, part);
      return Ok(None);
    }

    /** Produces the next entry. */
    method Next() returns (r: Option<Result<Entry, DictError>>)
      requires Inv()
      modifies this`segments, this`builder, this`status
      ensures Inv()
      ensures status == if r.Some? && r.value.Err? then Broken else old(status)
      ensures var before := old(Rest());
        if before.items != [] then
          r == Some(Ok(before.items[0])) && Rest() == Trace(before.items[1..], before.error)
        else if before.error.Some? then r == Some(Err(before.error.value)) && Rest() == DONE
        else r == None && Rest() == DONE
    {
      if status != Valid {
        if status == UnexpectedCell {
          status := Broken;
          return Some(Err(UnexpectedExoticCell));
        }
        return None;
      }
      hide Walk, WalkChild, ParseLabel, Pending, PathOf, PathBefore, Stacked;
      var descending := false;
      while true
        invariant status == Valid && Inv() && Pending(mode, segments) == old(Rest())
        invariant descending ==> segments != [] && Last(segments).prefix.Some? && Last(segments).visited == 0
        decreases !descending, if segments != [] then Last(segments).remaining else 0
      {
        var selected := Select();
        if selected.Err? {
          status := Broken;
          return Some(Err(selected.error));
        }
        if !selected.value {
          PendingEmpty(mode);
          return None;
        }
        var taken := TakeLabel();
        if taken.Err? {
          status := Broken;
          return Some(Err(taken.error));
        }
        if taken.value.Some? {
          ghost var tail := Pending(mode, segments);
          assert ([taken.value.value] + tail.items)[1..] == tail.items;
          return Some(Ok(taken.value.value));
        }
        descending := true;
      }
    }
  }
}
