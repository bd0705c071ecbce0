/** Decoding what the encoder wrote. */
module BocRoundTrip {
  import opened Cells
  import opened CellHash
  import opened CellGraph
  import opened Labels
  import opened BocFill
  import opened BocNumbering
  import opened BocCells
  import opened BocEncode
  import opened BocDecode

  // ---------------------------------------------------------------- the totals in the header

  function DataSum(cells: seq<Cell>, w: bool): nat {
    if cells == [] then 0 else DataSum(cells[..|cells| - 1], w) + ByteLenFull(cells[|cells| - 1], w)
  }

  function RefSum(cells: seq<Cell>): nat {
    if cells == [] then 0 else RefSum(cells[..|cells| - 1]) + |cells[|cells| - 1].refs| % 8
  }

  /** The running totals are the sums over the numbered cells. */
  predicate Tallied(st: Numbering, w: bool) { st.dataSize == DataSum(st.cells, w) && st.refCount == RefSum(st.cells) }

  lemma {:induction false} PushTallied(sha: Sha, st: Numbering, c: Cell, w: bool)
    requires Tallied(st, w)
    ensures Tallied(Push(sha, st, c, w), w)
  {
    hide ReprHash, ByteLenFull;
    assert (st.cells + [c])[..|st.cells|] == st.cells;
  }

  lemma {:induction false} NumberTallied(sha: Sha, st: Numbering, c: Cell, w: bool)
    requires Tallied(st, w)
    ensures Tallied(Number(sha, st, c, w), w)
    decreases c, |c.refs| + 1
  {
    hide ReprHash, Tallied, Push;
    NumberRefsTallied(sha, st, c, 0, w);
    PushTallied(sha, NumberRefs(sha, st, c, 0, w), c, w);
  }

  lemma {:induction false} NumberRefsTallied(sha: Sha, st: Numbering, c: Cell, k: nat, w: bool)
    requires k <= |c.refs| && Tallied(st, w)
    ensures Tallied(NumberRefs(sha, st, c, k, w), w)
    decreases c, |c.refs| - k
  {
    hide ReprHash, Tallied, Number;
    if k < |c.refs| {
      if ReprHash(sha, c.refs[k]) in st.indices {
        NumberRefsTallied(sha, st, c, k + 1, w);
      } else {
        NumberTallied(sha, st, c.refs[k], w);
        NumberRefsTallied(sha, Number(sha, st, c.refs[k], w), c, k + 1, w);
      }
    }
  }

  lemma {:induction false} FilledTallied(sha: Sha, roots: seq<Cell>, w: bool)
    ensures Tallied(Filled(sha, roots, w), w)
  {
    hide ReprHash, Number;
    if roots != [] {
      var before := Filled(sha, roots[..|roots| - 1], w);
      FilledTallied(sha, roots[..|roots| - 1], w);
      NumberTallied(sha, before, roots[|roots| - 1], w);
    }
  }

  lemma {:induction false} SumBounds(cells: seq<Cell>, w: bool)
    requires forall i :: 0 <= i < |cells| ==> cells[i].Fits()
    ensures DataSum(cells, w) <= |cells| * 264 && RefSum(cells) <= |cells| * 4
  {
    if cells != [] {
      SumBounds(cells[..|cells| - 1], w);
      ByteLenOfData(cells[|cells| - 1]);
    }
  }

  /** All numbered cells can be written, with children numbered below them. */
  ghost predicate Ready(sha: Sha, st: Numbering) {
    Bounded(st) && forall i :: 0 <= i < |st.cells| ==> ReadyAt(sha, st, i)
  }

  ghost predicate ReadyAt(sha: Sha, st: Numbering, i: nat)
    requires i < |st.cells|
  {
    st.cells[i].Fits() && Known(sha, st, st.cells[i].refs, i)
  }

  lemma {:induction false} KnownMore(sha: Sha, st: Numbering, cells: seq<Cell>, bound: nat, more: nat)
    requires Known(sha, st, cells, bound) && bound <= more
    ensures Known(sha, st, cells, more)
  {
    hide ReprHash;
    forall k | 0 <= k < |cells|
      ensures KnownAt(sha, st, cells[k], more)
    {
      assert KnownAt(sha, st, cells[k], bound);
    }
  }

  /** The cells take exactly the bytes that the totals promise. */
  lemma {:induction false} CellsBytesLength(sha: Sha, st: Numbering, n: nat, size: nat, w: bool)
    requires Ready(sha, st) && n <= |st.cells|
    ensures |CellsBytes(sha, st, st.cells[..n], size, w)| ==
      DataSum(st.cells[..n], w) + 2 * n + size * RefSum(st.cells[..n])
  {
    hide ReprHash, CellBytes, ByteLenFull;
    if n > 0 {
      var cells, c := st.cells[..n], st.cells[n - 1];
      assert cells[..n - 1] == st.cells[..n - 1] && ReadyAt(sha, st, n - 1);
      CellsBytesLength(sha, st, n - 1, size, w);
      KnownMore(sha, st, c.refs, n - 1, |st.cells|);
      CellBytesLength(sha, st, c, size, w);
      assert |c.refs| % 8 == |c.refs|;
      Distribute(size, RefSum(cells[..n - 1]), |c.refs|);
    }
  }

  lemma {:induction false} Distribute(a: int, b: int, c: int)
    ensures a * (b + c) == a * b + a * c && a * c == c * a
  {
  }

  /** Field widths are the least that suffice, and the decoder's bounds on the total size are met. */
  lemma {:induction false} TotalsFit(st: Numbering, roots: nat, w: bool)
    requires Tallied(st, w) && (forall i :: 0 <= i < |st.cells| ==> st.cells[i].Fits())
    requires 1 <= |st.cells| < U32_SIZE && |st.cells| <= st.refCount + roots
    ensures 1 <= RefSize(st) <= 4 && 1 <= OffsetSize(st) <= 8
    ensures Pow256(RefSize(st) - 1) <= |st.cells| < Pow256(RefSize(st))
    ensures Pow256(OffsetSize(st) - 1) <= TotalCellsSize(st) < Pow256(OffsetSize(st))
    ensures |st.cells| * (2 + RefSize(st)) - roots * RefSize(st) <= TotalCellsSize(st)
    ensures TotalCellsSize(st) <= |st.cells| * (2 + 4 * (2 + 32) + 128 + MAX_REF_COUNT * RefSize(st))
  {
    hide NumberOfBytesToFit, ByteLenFull, DataSum, RefSum;
    var n, s := |st.cells|, RefSize(st);
    assert Pow256(2) == 65536 && Pow256(4) == 65536 * Pow256(2) && Pow256(8) == U32_SIZE * Pow256(4) by {
      assert Pow256(6) == 65536 * Pow256(4);
    }
    SumBounds(st.cells, w);
    BytesToFit(n, 4);
    SizeBounds(n, s, st.dataSize, st.refCount, roots);
    assert n * (2 + 4 * (2 + 32) + 128 + MAX_REF_COUNT * s) < Pow256(8);
    BytesToFit(TotalCellsSize(st), 8);
  }

  lemma {:induction false} SizeBounds(n: nat, s: nat, data: nat, refs: nat, roots: nat)
    requires n < U32_SIZE && s <= 4 && data <= n * 264 && refs <= n * 4 && n <= refs + roots
    ensures n * (2 + s) - roots * s <= data + 2 * n + s * refs
    ensures data + 2 * n + s * refs <= n * (2 + 4 * (2 + 32) + 128 + MAX_REF_COUNT * s) < U64_SIZE
  {
    assert n * (2 + s) == 2 * n + n * s;
    assert n * s <= (refs + roots) * s == s * refs + roots * s;
    assert s * refs <= s * (n * 4) == n * (MAX_REF_COUNT * s);
    assert n * (266 + MAX_REF_COUNT * s) == n * 266 + n * (MAX_REF_COUNT * s);
    assert n * (MAX_REF_COUNT * s) <= n * 16;
  }

  // ---------------------------------------------------------------- raw cells

  /** The byte slices of the first `n` cells, in file order. */
  function RawList(sha: Sha, st: Numbering, cells: seq<Cell>, size: nat, w: bool): (s: seq<seq<byte>>)
    requires Bounded(st)
    ensures |s| == |cells|
  {
    if cells == [] then []
    else [CellBytes(sha, st, cells[|cells| - 1], size, w)] + RawList(sha, st, cells[..|cells| - 1], size, w)
  }

  predicate NoneRefused(cells: seq<Cell>, w: bool) {
    forall i :: 0 <= i < |cells| ==> !Refused(cells[i], w)
  }

  /** The decoder cuts the cell part into the cells that were written, unless one of them is refused. */
  lemma {:induction false} ReadCellsBack(sha: Sha, st: Numbering, n: nat, size: nat, w: bool,
                                         data: seq<byte>, at: nat, rest: seq<byte>, before: seq<seq<byte>>)
    requires Ready(sha, st) && n <= |st.cells| && AllRaw(before, size)
    requires at <= |data| && data[at..] == CellsBytes(sha, st, st.cells[..n], size, w) + rest
    ensures ReadCells(data, at, n, size, before) ==
      if NoneRefused(st.cells[..n], w) then Ok(before + RawList(sha, st, st.cells[..n], size, w))
      else Err(UnnormalizedCell)
    decreases n
  {
    hide ReprHash, CellBytes, ReadRawCell, Refused, RawCell;
    var cells := st.cells[..n];
    if n > 0 {
      var c := st.cells[n - 1];
      var bytes := CellBytes(sha, st, c, size, w);
      var tail := CellsBytes(sha, st, st.cells[..n - 1], size, w) + rest;
      assert cells[..n - 1] == st.cells[..n - 1] && cells[n - 1] == c && ReadyAt(sha, st, n - 1);
      assert data[at..] == bytes + tail;
      KnownMore(sha, st, c.refs, n - 1, |st.cells|);
      ReadRawBack(sha, st, c, size, w, tail);
      if !Refused(c, w) {
        RawCellCut(data[at..], size, |bytes|);
        assert data[at..][..|bytes|] == bytes && data[at + |bytes|..] == tail;
        ReadCellsBack(sha, st, n - 1, size, w, data, at + |bytes|, rest, before + [bytes]);
        assert before + [bytes] + RawList(sha, st, st.cells[..n - 1], size, w) == before + RawList(sha, st, cells, size, w);
        assert NoneRefused(cells, w) == NoneRefused(st.cells[..n - 1], w);
      }
    } else {
      assert before + RawList(sha, st, cells, size, w) == before;
    }
  }

  lemma {:induction false} RawListLength(sha: Sha, st: Numbering, cells: seq<Cell>, size: nat, w: bool, before: seq<seq<byte>>)
    requires Bounded(st)
    ensures TotalLen(before + RawList(sha, st, cells, size, w)) == TotalLen(before) + |CellsBytes(sha, st, cells, size, w)|
    decreases |cells|
  {
    hide CellBytes;
    var list := RawList(sha, st, cells, size, w);
    if cells == [] {
      assert before + list == before;
    } else {
      var bytes := CellBytes(sha, st, cells[|cells| - 1], size, w);
      assert (before + [bytes])[..|before|] == before;
      RawListLength(sha, st, cells[..|cells| - 1], size, w, before + [bytes]);
      assert before + list == before + [bytes] + RawList(sha, st, cells[..|cells| - 1], size, w);
    }
  }

  // ---------------------------------------------------------------- finished cells

  /** The cells finished so far are the numbered ones, storage flags aside. */
  ghost predicate SameCells(st: Numbering, done: seq<Cell>, n: nat) {
    |done| == n <= |st.cells| && forall i :: 0 <= i < n ==> Erase(done[i]) == Erase(st.cells[i])
  }

  lemma {:induction false} ResolvedSame(sha: Sha, u: set<Cell>, st: Numbering, c: Cell, done: seq<Cell>)
    requires Numbered(sha, st) && Inside(u, st.cells) && CollisionFree(sha, u) && Closed(u) && c in u
    requires SameCells(st, done, |done|) && Known(sha, st, c.refs, |done|)
    ensures forall k :: 0 <= k < |c.refs| ==> Erase(Resolved(sha, st, c.refs, done)[k]) == Erase(c.refs[k])
  {
    hide ReprHash, Erase;
    forall k | 0 <= k < |c.refs|
      ensures Erase(Resolved(sha, st, c.refs, done)[k]) == Erase(c.refs[k])
    {
      assert KnownAt(sha, st, c.refs[k], |done|) && c.refs[k] in u;
      assert Names(sha, st, ReprHash(sha, c.refs[k]));
    }
  }

  lemma {:induction false} SameParts(a: Cell, b: Cell)
    requires a.exotic == b.exotic && a.mask == b.mask && a.bits == b.bits && |a.refs| == |b.refs|
    requires forall k :: 0 <= k < |a.refs| ==> Erase(a.refs[k]) == Erase(b.refs[k])
    ensures Erase(a) == Erase(b)
  {
    assert Erase(a).refs == Erase(b).refs;
  }

  /** Raw cells assemble into the trees that were written. */
  lemma {:induction false} FinalizeBack(sha: Sha, u: set<Cell>, st: Numbering, n: nat, size: nat, w: bool) returns (done: seq<Cell>)
    requires Ready(sha, st) && Numbered(sha, st) && Inside(u, st.cells) && CollisionFree(sha, u) && Closed(u)
    requires n <= |st.cells| <= Pow256(size) && NoneRefused(st.cells, w)
    requires forall x :: x in u ==> Valid(sha, x)
    ensures AllRaw(RawList(sha, st, st.cells[..n], size, w), size)
    ensures Finalize(sha, RawList(sha, st, st.cells[..n], size, w), |st.cells|, size) == Ok(done)
    ensures SameCells(st, done, n)
    decreases n
  {
    hide ReprHash, CellBytes, FromRawCell, Refused, RawCell, Numbered, CollisionFree, Valid, Erase, Finalizable, Resolved;
    if n == 0 {
      done := [];
    } else {
      var before := FinalizeBack(sha, u, st, n - 1, size, w);
      var c, list := st.cells[n - 1], RawList(sha, st, st.cells[..n], size, w);
      assert st.cells[..n][..n - 1] == st.cells[..n - 1] && st.cells[..n][n - 1] == c && ReadyAt(sha, st, n - 1);
      assert list[1..] == RawList(sha, st, st.cells[..n - 1], size, w);
      FromRawBack(sha, st, c, before, size, w);
      var cell := Cell(c.exotic, c.storeHashes && !w, c.mask, c.bits, Resolved(sha, st, c.refs, before));
      ResolvedSame(sha, u, st, c, before);
      SameParts(cell, c);
      StillFinalizable(sha, c, cell);
      done := before + [cell];
    }
  }

  lemma {:induction false} StillFinalizable(sha: Sha, c: Cell, cell: Cell)
    requires Valid(sha, c) && Erase(cell) == Erase(c)
    ensures Finalizable(sha, cell)
  {
    hide Erase, Finalizable;
    EraseFinalizable(sha, c);
    EraseFinalizable(sha, cell);
  }

  // ---------------------------------------------------------------- the header

  predicate AllBelow(numbers: seq<nat>, n: nat) {
    forall i :: 0 <= i < |numbers| ==> numbers[i] < n
  }

  /** Root numbers counted from the front of the file. */
  function FileRoots(st: Numbering, numbers: seq<nat>): (s: seq<nat>)
    requires AllBelow(numbers, |st.cells|)
    ensures |s| == |numbers|
  {
    seq(|numbers|, i requires 0 <= i < |numbers| => |st.cells| - numbers[i] - 1)
  }

  lemma {:induction false} RootBytesHead(st: Numbering, numbers: seq<nat>, size: nat)
    requires AllBelow(numbers, |st.cells|) && numbers != []
    ensures RootBytes(st, numbers, size) ==
      UintBytes(|st.cells| - numbers[0] - 1, size) + RootBytes(st, numbers[1..], size)
  {
    var n := |numbers| - 1;
    if n == 0 {
      assert RootBytes(st, numbers[..0], size) == [];
    } else {
      RootBytesHead(st, numbers[..n], size);
      assert numbers[..n][1..] == numbers[1..][..n - 1];
    }
  }

  lemma {:induction false} RootBytesLength(st: Numbering, numbers: seq<nat>, size: nat)
    requires AllBelow(numbers, |st.cells|)
    ensures |RootBytes(st, numbers, size)| == |numbers| * size
  {
    if numbers != [] {
      RootBytesLength(st, numbers[..|numbers| - 1], size);
      assert |numbers| * size == (|numbers| - 1) * size + size;
    }
  }

  lemma {:induction false} ReadRootsBack(st: Numbering, numbers: seq<nat>, size: nat, data: seq<byte>, at: nat,
                                         rest: seq<byte>, before: seq<nat>)
    requires AllBelow(numbers, |st.cells|) && AllBelow(before, |st.cells|) && |st.cells| <= Pow256(size)
    requires at <= |data| && data[at..] == RootBytes(st, numbers, size) + rest
    ensures at + |numbers| * size <= |data| && data[at + |numbers| * size..] == rest
    ensures ReadRoots(data, at, |numbers|, size, |st.cells|, before) == Ok(before + FileRoots(st, numbers))
    decreases |numbers|
  {
    hide RootBytes, UintBytes, BytesUint, Pow256;
    RootBytesLength(st, numbers, size);
    SplitAt(data, at, RootBytes(st, numbers, size), rest);
    if numbers == [] {
      assert before + FileRoots(st, numbers) == before;
    } else {
      var index := |st.cells| - numbers[0] - 1;
      var first, tail := UintBytes(index, size), RootBytes(st, numbers[1..], size);
      RootBytesHead(st, numbers, size);
      Regroup(first, tail, rest);
      SplitAt(data, at, first, tail + rest);
      UintRoundTrip(index, size);
      SmallMod(index, Pow256(size));
      assert |numbers| * size == size + (|numbers| - 1) * size;
      ReadRootsBack(st, numbers[1..], size, data, at + size, rest, before + [index]);
      assert before + [index] + FileRoots(st, numbers[1..]) == before + FileRoots(st, numbers);
    }
  }

  /** The file starts with these fields, and `rest` follows the list of roots. */
  predicate HeaderFields(data: seq<byte>, st: Numbering, numbers: seq<nat>, includeCrc: bool, rest: seq<byte>)
    requires AllBelow(numbers, |st.cells|)
  {
    var s, o, at := RefSize(st), OffsetSize(st), 6 + 3 * RefSize(st);
    && |data| >= at + o && data[..4] == GENERIC && data[4] == s + 64 * BitValue(includeCrc) && data[5] == o
    && data[6..6 + s] == UintBytes(|st.cells|, s) && data[6 + s..6 + 2 * s] == UintBytes(|numbers|, s)
    && data[6 + 2 * s..at] == UintBytes(0, s) && data[at..at + o] == UintBytes(TotalCellsSize(st), o)
    && data[at + o..] == RootBytes(st, numbers, s) + rest
  }

  lemma {:induction false} HeaderStarts(st: Numbering, numbers: seq<nat>, includeCrc: bool, rest: seq<byte>)
    requires Writable(st) && AllBelow(numbers, |st.cells|)
    ensures HeaderFields(HeaderBytes(st, numbers, includeCrc) + rest, st, numbers, includeCrc, rest)
  {
    hide RefSize, OffsetSize, TotalCellsSize, UintBytes, RootBytes;
    var s, o := RefSize(st), OffsetSize(st);
    var h1 := GENERIC + [s + 64 * BitValue(includeCrc), o];
    var b, c, d := UintBytes(|st.cells|, s), UintBytes(|numbers|, s), UintBytes(0, s);
    var e, f := UintBytes(TotalCellsSize(st), o), RootBytes(st, numbers, s);
    var data := HeaderBytes(st, numbers, includeCrc) + rest;
    assert data == h1 + b + c + d + e + f + rest;
    SplitAll(data, h1, b, c, d, e, f + rest, f, rest);
    TagAndFlags(data, s + 64 * BitValue(includeCrc), o);
  }

  lemma {:induction false} TagAndFlags(data: seq<byte>, flags: byte, offsetSize: byte)
    requires |data| >= 6 && data[0..6] == GENERIC + [flags, offsetSize]
    ensures data[..4] == GENERIC && data[4] == flags && data[5] == offsetSize
  {
    var head := data[0..6];
    assert data[..4] == head[..4] && data[4] == head[4] && data[5] == head[5];
  }

  lemma {:induction false} SplitAll(data: seq<byte>, a: seq<byte>, b: seq<byte>, c: seq<byte>, d: seq<byte>, e: seq<byte>,
                                    tail: seq<byte>, f: seq<byte>, rest: seq<byte>)
    requires data == a + b + c + d + e + f + rest && tail == f + rest
    ensures var at1, at2, at3 := |a| + |b|, |a| + |b| + |c|, |a| + |b| + |c| + |d|;
      && at3 + |e| <= |data| && data[0..|a|] == a && data[|a|..at1] == b && data[at1..at2] == c && data[at2..at3] == d
      && data[at3..at3 + |e|] == e && data[at3 + |e|..] == tail
  {
    Regroup(a + b + c + d + e, f, rest);
    Regroup(a + b + c + d, e, tail);
    Regroup(a + b + c, d, e + tail);
    Regroup(a + b, c, d + (e + tail));
    Regroup(a, b, c + (d + (e + tail)));
    assert data[0..] == data;
    SplitAt(data, 0, a, b + (c + (d + (e + tail))));
    SplitAt(data, |a|, b, c + (d + (e + tail)));
    SplitAt(data, |a| + |b|, c, d + (e + tail));
    SplitAt(data, |a| + |b| + |c|, d, e + tail);
    SplitAt(data, |a| + |b| + |c| + |d|, e, tail);
  }

  function FileLayout(st: Numbering, includeCrc: bool): Layout {
    Layout(false, includeCrc, false, RefSize(st), OffsetSize(st), true)
  }

  function FileCounts(st: Numbering, rootCount: nat): Counts { Counts(|st.cells|, rootCount, 0, TotalCellsSize(st)) }

  /** What the decoder reads from a written header: all counts, the root count cut to the reference size. */
  lemma {:induction false} HeaderBack(st: Numbering, numbers: seq<nat>, includeCrc: bool, rest: seq<byte>)
    requires Writable(st) && AllBelow(numbers, |st.cells|) && RefSize(st) >= 1 && OffsetSize(st) >= 1
    requires |st.cells| < Pow256(RefSize(st)) && TotalCellsSize(st) < Pow256(OffsetSize(st))
    ensures var data := HeaderBytes(st, numbers, includeCrc) + rest;
      var l := FileLayout(st, includeCrc);
      && ReadLayout(data) == Ok(l)
      && CountsOf(data, l) == FileCounts(st, |numbers| % Pow256(RefSize(st)))
  {
    hide RefSize, OffsetSize, TotalCellsSize, UintBytes, BytesUint, RootBytes, Pow256, HeaderBytes;
    var s := RefSize(st);
    HeaderStarts(st, numbers, includeCrc, rest);
    UintRoundTrip(|st.cells|, s);
    UintRoundTrip(|numbers|, s);
    UintRoundTrip(0, s);
    UintRoundTrip(TotalCellsSize(st), OffsetSize(st));
    SmallMod(|st.cells|, Pow256(s));
    SmallMod(0, Pow256(s));
    SmallMod(TotalCellsSize(st), Pow256(OffsetSize(st)));
  }

  // ---------------------------------------------------------------- the whole file

  /** The state of a header that was filled with roots whose hashes tell trees apart. */
  ghost predicate Healthy(sha: Sha, u: set<Cell>, st: Numbering, numbers: seq<nat>, w: bool) {
    && Numbered(sha, st) && Inside(u, st.cells) && Closed(u) && CollisionFree(sha, u)
    && (forall x :: x in u ==> Valid(sha, x))
    && Ready(sha, st) && Tallied(st, w) && AllBelow(numbers, |st.cells|)
    && 1 <= |st.cells| < U32_SIZE && |st.cells| <= st.refCount + |numbers|
  }

  /** What the decoder accepts of what the encoder can write. */
  predicate Acceptable(st: Numbering, rootCount: nat, w: bool, options: Options) {
    && 1 <= rootCount <= |st.cells| && rootCount <= MaxRoots(options)
    && (options.minRoots.Some? ==> options.minRoots.value <= rootCount)
    && NoneRefused(st.cells, w)
  }

  lemma {:induction false} CountsPass(st: Numbering, numbers: seq<nat>, w: bool, includeCrc: bool, options: Options)
    requires Tallied(st, w) && (forall i :: 0 <= i < |st.cells| ==> st.cells[i].Fits())
    requires 1 <= |st.cells| < U32_SIZE && |st.cells| <= st.refCount + |numbers|
    requires 1 <= |numbers| <= |st.cells| && |numbers| <= MaxRoots(options)
    requires options.minRoots.Some? ==> options.minRoots.value <= |numbers|
    ensures var l := FileLayout(st, includeCrc);
      CountsError(l, FileCounts(st, |numbers|), options) == None
  {
    hide RefSize, OffsetSize, TotalCellsSize, DataSum, RefSum, ByteLenFull;
    TotalsFit(st, |numbers|, w);
  }

  ghost predicate Fitting(st: Numbering) {
    && Writable(st) && RefSize(st) >= 1 && OffsetSize(st) >= 1
    && |st.cells| < Pow256(RefSize(st)) && TotalCellsSize(st) < Pow256(OffsetSize(st))
  }

  lemma {:induction false} HealthyFits(sha: Sha, u: set<Cell>, st: Numbering, numbers: seq<nat>, w: bool)
    requires Healthy(sha, u, st, numbers, w)
    ensures Fitting(st) && Bounded(st) && forall i :: 0 <= i < |st.cells| ==> st.cells[i].Fits()
  {
    hide Numbered, CollisionFree, Valid, Tallied, RefSize, OffsetSize, TotalCellsSize, Pow256;
    forall i | 0 <= i < |st.cells|
      ensures st.cells[i].Fits()
    {
      assert ReadyAt(sha, st, i);
    }
    TotalsFit(st, |numbers|, w);
  }

  /** The header of the decoded file. */
  function FileHeader(sha: Sha, st: Numbering, numbers: seq<nat>, w: bool): Header
    requires Bounded(st) && AllBelow(numbers, |st.cells|)
  {
    Header(RefSize(st), RawList(sha, st, st.cells, RefSize(st), w), FileRoots(st, numbers))
  }

  /** Behind the counts the decoder finds the roots, the cells, their total size and the checksum. */
  lemma {:induction false} BodyBack(sha: Sha, crc: Crc, st: Numbering, numbers: seq<nat>, w: bool, includeCrc: bool, rest: seq<byte>)
    requires Bounded(st) && Ready(sha, st) && Tallied(st, w) && Fitting(st) && Writable(st)
    requires AllBelow(numbers, |st.cells|) && |st.cells| >= 1
    ensures var data := Encoded(sha, crc, st, numbers, w, includeCrc) + rest;
      var l := FileLayout(st, includeCrc);
      var c := FileCounts(st, |numbers|);
      var at := 6 + 3 * l.refSize + l.offsetSize;
      && at <= |data|
      && DecodeBody(crc, data, l, c, at) ==
           if NoneRefused(st.cells, w) then Ok(FileHeader(sha, st, numbers, w)) else Err(UnnormalizedCell)
  {
    hide RefSize, OffsetSize, TotalCellsSize, Pow256, HeaderBytes, CellsBytes, LittleEndian, FromLittleEndian, RootBytes;
    hide Tallied, NoneRefused, RawList, ReadRoots, DecodeCells, DecodeBody, Ready, Bounded, UintBytes, CellBytes, ReprHash;
    hide FileRoots, Fitting;
    FittingIs(st);
    var s, at := RefSize(st), 6 + 3 * RefSize(st) + OffsetSize(st);
    var header, cells := HeaderBytes(st, numbers, includeCrc), CellsBytes(sha, st, st.cells, s, w);
    var body := header + cells;
    var sum := if includeCrc then LittleEndian(crc(body)) else [];
    var data := body + sum + rest;
    Regroup(body, sum, rest);
    Regroup(header, cells, sum + rest);
    HeaderStarts(st, numbers, includeCrc, cells + (sum + rest));
    ReadRootsBack(st, numbers, s, data, at, cells + (sum + rest), []);
    assert [] + FileRoots(st, numbers) == FileRoots(st, numbers);
    var l := FileLayout(st, includeCrc);
    var c := FileCounts(st, |numbers|);
    BodyIs(crc, data, l, c, at, FileRoots(st, numbers));
    CellPartBack(sha, crc, st, FileRoots(st, numbers), w, l, c, data, at + |numbers| * s, body, rest);
  }

  lemma {:induction false} BodyIs(crc: Crc, data: seq<byte>, l: Layout, c: Counts, at: nat, roots: seq<nat>)
    requires c.cells >= 1 && l.multipleRoots && at + c.roots * l.refSize <= |data|
    requires ReadRoots(data, at, c.roots, l.refSize, c.cells, []) == Ok(roots)
    ensures AllBelow(roots, c.cells) && DecodeBody(crc, data, l, c, at) == DecodeCells(crc, data, l, c, roots, at + c.roots * l.refSize)
  {
    hide ReadRoots, DecodeCells;
  }

  lemma {:induction false} CellPartBack(sha: Sha, crc: Crc, st: Numbering, roots: seq<nat>, w: bool, l: Layout,
                                        c: Counts, data: seq<byte>, at: nat, body: seq<byte>, rest: seq<byte>)
    requires Bounded(st) && Ready(sha, st) && Tallied(st, w) && AllBelow(roots, |st.cells|)
    requires !l.hasIndex && l.refSize == RefSize(st) && c.totalSize == TotalCellsSize(st) && c.cells == |st.cells| >= 1
    requires data == body + ((if l.hasCrc then LittleEndian(crc(body)) else []) + rest)
    requires at <= |data|
    requires data[at..] == CellsBytes(sha, st, st.cells, l.refSize, w)
      + ((if l.hasCrc then LittleEndian(crc(body)) else []) + rest)
    ensures DecodeCells(crc, data, l, c, roots, at) ==
      if NoneRefused(st.cells, w) then Ok(Header(l.refSize, RawList(sha, st, st.cells, l.refSize, w), roots))
      else Err(UnnormalizedCell)
  {
    hide RefSize, TotalCellsSize, Tallied, CellsBytes, LittleEndian, FromLittleEndian, ReprHash;
    hide RawCell, ReadRawCell, NoneRefused, RawList, Ready, Bounded, ReadCells, TotalLen;
    var cells := CellsBytes(sha, st, st.cells, l.refSize, w);
    var tail := (if l.hasCrc then LittleEndian(crc(body)) else []) + rest;
    assert st.cells[..|st.cells|] == st.cells;
    CellsTotal(sha, st, w);
    assert AllRaw([], l.refSize);
    ReadCellsBack(sha, st, |st.cells|, l.refSize, w, data, at, tail, []);
    var list := RawList(sha, st, st.cells, l.refSize, w);
    assert [] + list == list;
    RawListLength(sha, st, st.cells, l.refSize, w, []);
    TotalLenAppend([], []);
    SplitAt(data, at, cells, tail);
    assert data[0..] == data && |data| == |body| + |tail|;
    SplitAt(data, 0, body, tail);
    if l.hasCrc {
      LittleEndianRoundTrip(crc(body));
      SplitAt(data, |body|, LittleEndian(crc(body)), rest);
    }
  }

  lemma {:induction false} CellsTotal(sha: Sha, st: Numbering, w: bool)
    requires Ready(sha, st) && Tallied(st, w)
    ensures |CellsBytes(sha, st, st.cells, RefSize(st), w)| == TotalCellsSize(st)
  {
    hide ReprHash, CellBytes, CellsBytes, RefSize, DataSum, RefSum;
    assert st.cells[..|st.cells|] == st.cells;
    CellsBytesLength(sha, st, |st.cells|, RefSize(st), w);
  }

  /** The decoder accepts a written header exactly when the roots are few enough and no cell is refused. */
  lemma {:induction false} DecodeBack(sha: Sha, crc: Crc, u: set<Cell>, st: Numbering, numbers: seq<nat>, w: bool,
                                      includeCrc: bool, options: Options, rest: seq<byte>)
    requires Healthy(sha, u, st, numbers, w) && Writable(st)
    ensures var decoded := Decode(crc, Encoded(sha, crc, st, numbers, w, includeCrc) + rest, options);
      && (Acceptable(st, |numbers|, w, options) ==> decoded == Ok(FileHeader(sha, st, numbers, w)))
      && (decoded.Ok? && |decoded.value.roots| == |numbers| ==> Acceptable(st, |numbers|, w, options))
  {
    hide Numbered, CollisionFree, Valid, Tallied, RefSize, OffsetSize, TotalCellsSize, Pow256, NoneRefused, CountsOf;
    hide HeaderBytes, CellsBytes, LittleEndian, DecodeBody, ReadLayout, Ready, Bounded, CountsError, RawList, Fitting;
    HealthyFits(sha, u, st, numbers, w);
    FittingIs(st);
    var body := BodyBytes(sha, st, numbers, w, includeCrc);
    var tail := (if includeCrc then LittleEndian(crc(body)) else []) + rest;
    var data := Encoded(sha, crc, st, numbers, w, includeCrc) + rest;
    var cells := CellsBytes(sha, st, st.cells, RefSize(st), w);
    assert data == HeaderBytes(st, numbers, includeCrc) + (cells + tail);
    HeaderBack(st, numbers, includeCrc, cells + tail);
    var l := FileLayout(st, includeCrc);
    LayoutBounds(data);
    var c := CountsOf(data, l);
    BodyBack(sha, crc, st, numbers, w, includeCrc, rest);
    if Acceptable(st, |numbers|, w, options) {
      SmallMod(|numbers|, Pow256(RefSize(st)));
      CountsPass(st, numbers, w, includeCrc, options);
    }
    var decoded := Decode(crc, data, options);
    if decoded.Ok? && |decoded.value.roots| == |numbers| {
      CountsPassed(l, c, options);
      assert c.roots == |numbers|;
    }
  }

  lemma {:induction false} FittingIs(st: Numbering)
    requires Fitting(st)
    ensures Writable(st) && RefSize(st) >= 1 && OffsetSize(st) >= 1
    ensures |st.cells| < Pow256(RefSize(st)) && TotalCellsSize(st) < Pow256(OffsetSize(st))
  {
    hide RefSize, OffsetSize, TotalCellsSize, Pow256;
  }

  lemma {:induction false} CountsPassed(l: Layout, c: Counts, options: Options)
    requires CountsError(l, c, options) == None
    ensures 1 <= c.roots <= c.cells && c.roots <= MaxRoots(options)
    ensures options.minRoots.Some? ==> options.minRoots.value <= c.roots
  {
  }

  // ---------------------------------------------------------------- main theorem

  /** The same trees in the same order; storage flags, which no hash covers, may differ. */
  ghost predicate SameTrees(a: seq<Cell>, b: seq<Cell>) {
    |a| == |b| && forall i :: 0 <= i < |a| ==> Erase(a[i]) == Erase(b[i])
  }

  /** Roots that can be told apart by their hashes and that are few enough for 32-bit indices. */
  ghost predicate Distinguishable(sha: Sha, roots: seq<Cell>, w: bool) {
    && (forall i :: 0 <= i < |roots| ==> Valid(sha, roots[i]))
    && CollisionFree(sha, ReachAll(roots))
    && |Filled(sha, roots, w).cells| < U32_SIZE
  }

  lemma {:induction false} FilledHealthy(sha: Sha, roots: seq<Cell>, w: bool)
    requires Distinguishable(sha, roots, w) && roots != []
    ensures Healthy(sha, ReachAll(roots), Filled(sha, roots, w), RootNumbers(sha, roots, w), w)
    ensures AllPlaced(Filled(sha, roots, w), RootNumbers(sha, roots, w), roots)
  {
    hide AfterRoot, RootNumber, ReachAll, Valid, CollisionFree, Erase, ReprHash, Tallied;
    var u, st, numbers := ReachAll(roots), Filled(sha, roots, w), RootNumbers(sha, roots, w);
    ReachAllClosed(roots);
    ReachAllValid(sha, roots);
    forall x | x in u
      ensures x.Fits()
    {
      ValidFits(sha, x);
    }
    FilledKeeps(sha, u, roots, w);
    FilledTallied(sha, roots, w);
    NumberedReady(sha, u, st);
    forall i | 0 <= i < |roots|
      ensures numbers[i] < |st.cells|
    {
      assert RootPlaced(st, numbers, roots, i);
    }
  }

  lemma {:induction false} ValidFits(sha: Sha, c: Cell)
    requires Valid(sha, c)
    ensures c.Fits()
  {
  }

  lemma {:induction false} NumberedReady(sha: Sha, u: set<Cell>, st: Numbering)
    requires Numbered(sha, st) && Inside(u, st.cells) && forall x :: x in u ==> x.Fits()
    ensures Ready(sha, st)
  {
    hide ReprHash, Known;
    forall h | h in st.indices
      ensures st.indices[h] < |st.cells|
    {
      assert Names(sha, st, h);
    }
    forall i | 0 <= i < |st.cells|
      ensures ReadyAt(sha, st, i)
    {
      assert PlacedAt(sha, st, i);
    }
  }

  /** Nothing was added: the header has no valid reference size. */
  lemma {:induction false} EmptyRejected(sha: Sha, crc: Crc, w: bool, includeCrc: bool, options: Options, rest: seq<byte>)
    ensures Writable(EMPTY)
    ensures Decode(crc, Encoded(sha, crc, EMPTY, [], w, includeCrc) + rest, options) == Err(InvalidRefSize)
  {
    hide LittleEndian, HeaderBytes, UintBytes, RootBytes;
    NothingFits();
    var header := HeaderBytes(EMPTY, [], includeCrc);
    var sum := if includeCrc then LittleEndian(crc(header)) else [];
    assert header + CellsBytes(sha, EMPTY, [], 0, w) == header;
    Regroup(header, sum, rest);
    HeaderStarts(EMPTY, [], includeCrc, sum + rest);
  }

  lemma {:induction false} NothingFits()
    ensures RefSize(EMPTY) == 0 && OffsetSize(EMPTY) == 0
  {
  }

  /** Root trees found through the file's root list. */
  lemma {:induction false} RootsBack(sha: Sha, crc: Crc, roots: seq<Cell>, w: bool, data: seq<byte>, options: Options)
    requires Distinguishable(sha, roots, w) && roots != [] && NoneRefused(Filled(sha, roots, w).cells, w)
    requires Healthy(sha, ReachAll(roots), Filled(sha, roots, w), RootNumbers(sha, roots, w), w)
    requires AllPlaced(Filled(sha, roots, w), RootNumbers(sha, roots, w), roots)
    requires Decode(crc, data, options) == Ok(FileHeader(sha, Filled(sha, roots, w), RootNumbers(sha, roots, w), w))
    ensures DecodeRoots(sha, crc, data, options).Ok? && SameTrees(DecodeRoots(sha, crc, data, options).value, roots)
  {
    hide Filled, RootNumbers, ReachAll, Valid, CollisionFree, Erase, ReprHash, Tallied, Numbered, Decode, Closed, Inside;
    hide RawList, Finalize, RefSize, Ready, Bounded, NoneRefused, Pow256, Fitting;
    var u, st, numbers := ReachAll(roots), Filled(sha, roots, w), RootNumbers(sha, roots, w);
    HealthyFits(sha, u, st, numbers, w);
    FittingIs(st);
    assert st.cells[..|st.cells|] == st.cells;
    var done := FinalizeBack(sha, u, st, |st.cells|, RefSize(st), w);
    var trees := DecodeRoots(sha, crc, data, options).value;
    forall i | 0 <= i < |roots|
      ensures Erase(trees[i]) == Erase(roots[i])
    {
      assert RootPlaced(st, numbers, roots, i);
      assert trees[i] == done[numbers[i]];
    }
  }

  /** Decoding what was encoded gives back the roots exactly when the decoder's limits admit them. */
  lemma {:induction false} RoundTrip(sha: Sha, crc: Crc, roots: seq<Cell>, w: bool, includeCrc: bool, options: Options, rest: seq<byte>)
    requires Distinguishable(sha, roots, w)
    ensures var st, numbers := Filled(sha, roots, w), RootNumbers(sha, roots, w);
      && Bounded(st) && Writable(st) && AllBelow(numbers, |st.cells|)
      && var decoded := DecodeRoots(sha, crc, Encoded(sha, crc, st, numbers, w, includeCrc) + rest, options);
         Acceptable(st, |roots|, w, options) <==> decoded.Ok? && SameTrees(decoded.value, roots)
  {
    hide Filled, RootNumbers, ReachAll, Erase, ReprHash, Encoded, Finalize, RefSize, Numbered, CollisionFree, Valid, Ready;
    hide Tallied, Fitting, NoneRefused, Decode;
    var u, st, numbers := ReachAll(roots), Filled(sha, roots, w), RootNumbers(sha, roots, w);
    if roots == [] {
      NothingFilled(sha, w);
      EmptyRejected(sha, crc, w, includeCrc, options, rest);
    } else {
      FilledHealthy(sha, roots, w);
      HealthyFits(sha, u, st, numbers, w);
      FittingIs(st);
      DecodeBack(sha, crc, u, st, numbers, w, includeCrc, options, rest);
      var data := Encoded(sha, crc, st, numbers, w, includeCrc) + rest;
      if Acceptable(st, |roots|, w, options) { RootsBack(sha, crc, roots, w, data, options); }
    }
  }

  lemma {:induction false} NothingFilled(sha: Sha, w: bool)
    ensures Filled(sha, [], w) == EMPTY && RootNumbers(sha, [], w) == []
  {
  }

  /** A root added twice is written twice but counted against one cell: the file cannot be read back. */
  lemma {:induction false} DuplicateRootLost(sha: Sha, crc: Crc, options: Options)
    ensures var empty := Cell(false, false, NO_LEVELS, [], []);
      var st, numbers := Filled(sha, [empty, empty], false), RootNumbers(sha, [empty, empty], false);
      && Bounded(st) && Writable(st) && AllBelow(numbers, |st.cells|)
      && var decoded := DecodeRoots(sha, crc, Encoded(sha, crc, st, numbers, false, false) + [], options);
         !(decoded.Ok? && SameTrees(decoded.value, [empty, empty]))
  {
    hide Encoded, DecodeRoots, ReprHash, Pack, ByteLenFull, RefSize, OffsetSize;
    var empty := Cell(false, false, NO_LEVELS, [], []);
    var roots := [empty, empty];
    assert roots[..1] == [empty] && [empty][..0] == [];
    assert Filled(sha, [empty], false).cells == [empty];
    assert Filled(sha, roots, false).cells == [empty];
    assert Reach(empty) == {empty};
    assert ReachAll([empty]) == {} + {empty};
    assert ReachAll(roots) == {empty};
    assert Valid(sha, empty);
    RoundTrip(sha, crc, roots, false, false, options, []);
  }
}
