/** Reading a bag of cells: header, raw cells, checksum, and the trees they describe. */
module BocDecode {
  import opened Cells
  import opened CellHash
  import opened BocCells
  import opened BocEncode

  const MAX_ROOTS: nat := 32

  datatype Options = Options(minRoots: Option<nat>, maxRoots: Option<nat>)

  datatype BocTag = Indexed | IndexedCrc32 | Generic

  function TagOf(bytes: seq<byte>): Option<BocTag> {
    if bytes == GENERIC then Some(Generic)
    else if bytes == [0xac, 0xc3, 0xa7, 0x28] then Some(IndexedCrc32)
    else if bytes == [0x68, 0xff, 0x65, 0xf3] then Some(Indexed)
    else None
  }

  /** What tag and flags say about the rest of the file. */
  datatype Layout = Layout(hasIndex: bool, hasCrc: bool, hasCacheBits: bool, refSize: nat, offsetSize: nat, multipleRoots: bool)

  function LayoutOf(tag: BocTag, flags: byte, offsetSize: byte): Layout {
    match tag
    case Indexed => Layout(true, false, false, flags, offsetSize, false)
    case IndexedCrc32 => Layout(true, true, false, flags, offsetSize, false)
    case Generic => Layout(flags / 128 == 1, flags / 64 % 2 == 1, flags / 32 % 2 == 1, flags % 8, offsetSize, true)
  }

  function ReadLayout(data: seq<byte>): Result<Layout, BocError> {
    if |data| < 6 then Err(UnexpectedEof)
    else
      match TagOf(data[..4])
      case None => Err(UnknownBocTag)
      case Some(tag) =>
        var l := LayoutOf(tag, data[4], data[5]);
        if l.hasCacheBits && !l.hasIndex then Err(InvalidHeader)
        else if l.refSize == 0 || l.refSize > 4 then Err(InvalidRefSize)
        else if l.offsetSize == 0 || l.offsetSize > 8 then Err(InvalidOffsetSize)
        else if |data| < 6 + 3 * l.refSize + l.offsetSize then Err(InvalidHeader)
        else Ok(l)
  }

  datatype Counts = Counts(cells: nat, roots: nat, absent: nat, totalSize: nat)

  /** The counts behind the flags. */
  function CountsOf(data: seq<byte>, l: Layout): Counts
    requires |data| >= 6 + 3 * l.refSize + l.offsetSize
  {
    var at := 6 + 3 * l.refSize;
    Counts(BytesUint(data[6..6 + l.refSize]), BytesUint(data[6 + l.refSize..6 + 2 * l.refSize]),
           BytesUint(data[6 + 2 * l.refSize..at]), BytesUint(data[at..at + l.offsetSize]))
  }

  /** The first check on the counts that fails, if any. */
  function CountsError(l: Layout, c: Counts, options: Options): Option<BocError> {
    if c.roots == 0 then Some(RootCellNotFound)
    else if !l.multipleRoots && c.roots > 1 then Some(UnexpectedMultipleRoots)
    else if c.roots + c.absent > c.cells then Some(TooManyRootCells)
    else if c.absent > 0 then Some(AbsentCellsNotSupported)
    else if options.minRoots.Some? && c.roots < options.minRoots.value then Some(TooFewRootCells)
    else if c.roots > MaxRoots(options) then Some(TooManyRootCells)
    else if c.totalSize < c.cells * (2 + l.refSize) - c.roots * l.refSize then Some(InvalidTotalSize)
    else if c.totalSize > c.cells * (2 + 4 * (2 + 32) + 128 + MAX_REF_COUNT * l.refSize) then Some(InvalidTotalSize)
    else None
  }

  function MaxRoots(options: Options): nat { if options.maxRoots.Some? then options.maxRoots.value else MAX_ROOTS }

  /** Appends `n` root indices to those read so far. */
  function ReadRoots(data: seq<byte>, at: nat, n: nat, size: nat, cells: nat, roots: seq<nat>): (r: Result<seq<nat>, BocError>)
    requires at + n * size <= |data| && forall i :: 0 <= i < |roots| ==> roots[i] < cells
    ensures r.Ok? ==> |r.value| == |roots| + n && forall i :: 0 <= i < |r.value| ==> r.value[i] < cells
    decreases n
  {
    if n == 0 then Ok(roots)
    else
      assert n * size == size + (n - 1) * size;
      var root := BytesUint(data[at..at + size]);
      if root >= cells then Err(RootOutOfBounds)
      else ReadRoots(data, at + size, n - 1, size, cells, roots + [root])
  }

  /** Appends the byte slices of `n` cells to those read so far, in file order. */
  function ReadCells(data: seq<byte>, at: nat, n: nat, size: nat, cells: seq<seq<byte>>): (r: Result<seq<seq<byte>>, BocError>)
    requires at <= |data| && AllRaw(cells, size)
    ensures r.Ok? ==> |r.value| == |cells| + n && AllRaw(r.value, size)
    decreases n
  {
    if n == 0 then Ok(cells)
    else
      match ReadRawCell(data[at..], size)
      case Err(e) => Err(e)
      case Ok(length) =>
        RawCellCut(data[at..], size, length);
        ReadCells(data, at + length, n - 1, size, cells + [data[at..][..length]])
  }

  predicate AllRaw(cells: seq<seq<byte>>, size: nat) {
    forall i :: 0 <= i < |cells| ==> RawCell(cells[i], size)
  }

  function TotalLen(cells: seq<seq<byte>>): nat {
    if cells == [] then 0 else TotalLen(cells[..|cells| - 1]) + |cells[|cells| - 1]|
  }

  /** What was read lies within the file. */
  lemma {:induction false} ReadCellsInside(data: seq<byte>, at: nat, n: nat, size: nat, cells: seq<seq<byte>>)
    requires at <= |data| && AllRaw(cells, size) && ReadCells(data, at, n, size, cells).Ok?
    ensures at + TotalLen(ReadCells(data, at, n, size, cells).value) <= |data| + TotalLen(cells)
    decreases n
  {
    hide ReadRawCell, RawCell;
    if n != 0 {
      var length := ReadRawCell(data[at..], size).value;
      var cell := data[at..][..length];
      RawCellCut(data[at..], size, length);
      assert (cells + [cell])[..|cells|] == cells;
      ReadCellsInside(data, at + length, n - 1, size, cells + [cell]);
    }
  }

  /** A cell is read alike without what follows it. */
  lemma {:induction false} RawCellCut(bytes: seq<byte>, size: nat, length: nat)
    requires ReadRawCell(bytes, size) == Ok(length)
    ensures RawCell(bytes[..length], size)
  {
    hide Descriptor.Mask;
    assert bytes[..length][0] == bytes[0] && bytes[..length][1] == bytes[1];
  }

  datatype Header = Header(refSize: nat, cells: seq<seq<byte>>, roots: seq<nat>)

  /** A header whose slices are cells and whose roots are among them. */
  predicate Sound(h: Header) {
    AllRaw(h.cells, h.refSize) && forall i :: 0 <= i < |h.roots| ==> h.roots[i] < |h.cells|
  }

  function Decode(crc: Crc, data: seq<byte>, options: Options): (r: Result<Header, BocError>)
    ensures r.Ok? ==> Sound(r.value)
  {
    match ReadLayout(data)
    case Err(e) => Err(e)
    case Ok(l) =>
      var c := CountsOf(data, l);
      var error := CountsError(l, c, options);
      var at := 6 + 3 * l.refSize + l.offsetSize;
      if error.Some? then Err(error.value) else DecodeBody(crc, data, l, c, at)
  }

  /** The part behind the counts. */
  function DecodeBody(crc: Crc, data: seq<byte>, l: Layout, c: Counts, at: nat): (r: Result<Header, BocError>)
    requires at <= |data| && c.cells >= 1
    ensures r.Ok? ==> Sound(r.value) && |r.value.cells| == c.cells
    ensures r.Ok? && l.multipleRoots ==> |r.value.roots| == c.roots
  {
    if |data| < at + c.roots * l.refSize then Err(UnexpectedEof)
    else if l.multipleRoots then
      match ReadRoots(data, at, c.roots, l.refSize, c.cells, [])
      case Err(e) => Err(e)
      case Ok(roots) => DecodeCells(crc, data, l, c, roots, at + c.roots * l.refSize)
    else DecodeCells(crc, data, l, c, [0], at)
  }

  /** The part behind the root list. */
  function DecodeCells(crc: Crc, data: seq<byte>, l: Layout, c: Counts, roots: seq<nat>, at: nat): (r: Result<Header, BocError>)
    requires at <= |data| && c.cells >= 1 && forall i :: 0 <= i < |roots| ==> roots[i] < c.cells
    ensures r.Ok? ==> Sound(r.value) && r.value.roots == roots && |r.value.cells| == c.cells
  {
    var indexSize := if l.hasIndex then c.cells * l.offsetSize else 0;
    if |data| < at + indexSize + c.totalSize + 4 * BitValue(l.hasCrc) then Err(UnexpectedEof)
    else
      var start := at + indexSize;
      match ReadCells(data, start, c.cells, l.refSize, [])
      case Err(e) => Err(e)
      case Ok(cells) =>
        ReadCellsInside(data, start, c.cells, l.refSize, []);
        var end := start + TotalLen(cells);
        if start + c.totalSize != end then Err(InvalidTotalSize)
        else if l.hasCrc && |data| < end + 4 then Err(UnexpectedEof)
        else if l.hasCrc && FromLittleEndian(data[end..end + 4]) != crc(data[..end]) then Err(InvalidChecksum)
        else Ok(Header(l.refSize, cells, roots))
  }

  /** Builds the cells from the last one of the file to the first; children must have been built already. */
  function Finalize(sha: Sha, cells: seq<seq<byte>>, count: nat, size: nat): Result<seq<Cell>, BocError>
    requires AllRaw(cells, size)
  {
    if cells == [] then Ok([])
    else
      match Finalize(sha, cells[1..], count, size)
      case Err(e) => Err(e)
      case Ok(done) =>
        match FromRawCell(cells[0], done, count, size)
        case Err(e) => Err(e)
        case Ok(c) => if Finalizable(sha, c) then Ok(done + [c]) else Err(InvalidBocCell)
  }

  lemma {:induction false} FinalizeLength(sha: Sha, cells: seq<seq<byte>>, count: nat, size: nat)
    requires AllRaw(cells, size) && Finalize(sha, cells, count, size).Ok?
    ensures |Finalize(sha, cells, count, size).value| == |cells|
  {
    hide FromRawCell, Finalizable, RawCell;
    if cells != [] { FinalizeLength(sha, cells[1..], count, size); }
  }

  /** The trees behind the roots of a file. */
  function DecodeRoots(sha: Sha, crc: Crc, data: seq<byte>, options: Options): Result<seq<Cell>, BocError> {
    match Decode(crc, data, options)
    case Err(e) => Err(e)
    case Ok(h) =>
      match Finalize(sha, h.cells, |h.cells|, h.refSize)
      case Err(e) => Err(e)
      case Ok(done) =>
        FinalizeLength(sha, h.cells, |h.cells|, h.refSize);
        Ok(seq(|h.roots|, i requires 0 <= i < |h.roots| => done[|done| - h.roots[i] - 1]))
  }

  // ---------------------------------------------------------------- the reader

  /** A cursor over the file. */
  class BocReader {
    const len: nat
    var offset: nat

    constructor (len: nat)
      ensures this.len == len && offset == 0
    {
      this.len, offset := len, 0;
    }

    predicate Require(n: nat)
      reads this
    {
      offset + n <= len
    }

    method Advance(n: nat)
      modifies this
      ensures offset == old(offset) + n
    {
      offset := offset + n;
    }

    method ReadUint(data: seq<byte>, size: nat) returns (v: nat)
      requires |data| == len && Require(size)
      modifies this
      ensures v == BytesUint(data[old(offset)..old(offset) + size]) && offset == old(offset) + size
    {
      v := BytesUint(data[offset..offset + size]);
      Advance(size);
    }
  }

  method DecodeLayout(data: seq<byte>, reader: BocReader) returns (r: Result<Layout, BocError>)
    requires reader.len == |data| && reader.offset == 0
    modifies reader
    ensures r == ReadLayout(data) && (r.Ok? ==> reader.offset == 6)
  {
    if !reader.Require(6) { return Err(UnexpectedEof); }
    var flags, offsetSize := data[4], data[5];
    var tag := TagOf(data[..4]);
    if tag.None? { return Err(UnknownBocTag); }
    var l := LayoutOf(tag.value, flags, offsetSize);
    if l.hasCacheBits && !l.hasIndex { return Err(InvalidHeader); }
    if l.refSize == 0 || l.refSize > 4 { return Err(InvalidRefSize); }
    if l.offsetSize == 0 || l.offsetSize > 8 { return Err(InvalidOffsetSize); }
    reader.Advance(6);
    if !reader.Require(l.refSize * 3 + l.offsetSize) { return Err(InvalidHeader); }
    r := Ok(l);
  }

  method DecodeHeader(crc: Crc, data: seq<byte>, options: Options) returns (r: Result<Header, BocError>)
    ensures r == Decode(crc, data, options)
  {
    hide ReadLayout, BytesUint, ReadRoots, ReadCells, DecodeCells;
    var reader := new BocReader(|data|);
    var layout := DecodeLayout(data, reader);
    if layout.Err? { return Err(layout.error); }
    var l := layout.value;
    LayoutBounds(data);
    var cellCount := reader.ReadUint(data, l.refSize);
    var rootCount := reader.ReadUint(data, l.refSize);
    var absentCount := reader.ReadUint(data, l.refSize);
    var totalSize := reader.ReadUint(data, l.offsetSize);
    var c := Counts(cellCount, rootCount, absentCount, totalSize);
    assert c == CountsOf(data, l);
    var error := CountsError(l, c, options);
    if error.Some? { return Err(error.value); }
    if !reader.Require(rootCount * l.refSize) { return Err(UnexpectedEof); }
    var roots := [0];
    if l.multipleRoots {
      var list := DecodeRootList(data, reader, rootCount, l.refSize, cellCount);
      if list.Err? { return Err(list.error); }
      roots := list.value;
    }
    r := DecodeCellList(crc, data, reader, l, c, roots);
  }

  lemma {:induction false} LayoutBounds(data: seq<byte>)
    requires ReadLayout(data).Ok?
    ensures |data| >= 6 + 3 * ReadLayout(data).value.refSize + ReadLayout(data).value.offsetSize
  {
  }

  lemma {:induction false} RootFits(n: nat, size: nat)
    requires n > 0
    ensures n * size == size + (n - 1) * size && (n - 1) * size >= 0
  {
  }

  method DecodeRootList(data: seq<byte>, reader: BocReader, rootCount: nat, size: nat, cellCount: nat)
    returns (r: Result<seq<nat>, BocError>)
    requires reader.len == |data| && reader.Require(rootCount * size)
    modifies reader
    ensures r == ReadRoots(data, old(reader.offset), rootCount, size, cellCount, [])
    ensures r.Ok? ==> reader.offset == old(reader.offset) + rootCount * size
  {
    hide BytesUint;
    var roots: seq<nat> := [];
    ghost var start, end, left := reader.offset, reader.offset + rootCount * size, rootCount;
    for i := 0 to rootCount
      invariant left == rootCount - i && end <= |data| && reader.offset + left * size == end
      invariant forall j :: 0 <= j < |roots| ==> roots[j] < cellCount
      invariant ReadRoots(data, start, rootCount, size, cellCount, []) ==
        ReadRoots(data, reader.offset, left, size, cellCount, roots)
    {
      RootFits(left, size);
      var rootIndex := reader.ReadUint(data, size);
      if rootIndex >= cellCount { return Err(RootOutOfBounds); }
      roots := roots + [rootIndex];
      left := left - 1;
    }
    r := Ok(roots);
  }

  lemma {:induction false} TotalLenAppend(cells: seq<seq<byte>>, cell: seq<byte>)
    ensures TotalLen(cells + [cell]) == TotalLen(cells) + |cell| && TotalLen([]) == 0
  {
    assert (cells + [cell])[..|cells|] == cells;
  }

  method ReadCellList(data: seq<byte>, reader: BocReader, n: nat, size: nat) returns (r: Result<seq<seq<byte>>, BocError>)
    requires reader.len == |data| && reader.offset <= |data|
    modifies reader
    ensures r == ReadCells(data, old(reader.offset), n, size, [])
    ensures r.Ok? ==> reader.offset == old(reader.offset) + TotalLen(r.value)
  {
    hide ReadRawCell, RawCell, TotalLen;
    var start := reader.offset;
    var cells: seq<seq<byte>> := [];
    TotalLenAppend([], []);
    for i := 0 to n
      invariant reader.offset <= |data| && reader.offset == start + TotalLen(cells) && AllRaw(cells, size)
      invariant ReadCells(data, start, n, size, []) == ReadCells(data, reader.offset, n - i, size, cells)
    {
      var length := ReadRawCell(data[reader.offset..], size);
      if length.Err? { return Err(length.error); }
      RawCellCut(data[reader.offset..], size, length.value);
      var cell := data[reader.offset..][..length.value];
      reader.Advance(length.value);
      TotalLenAppend(cells, cell);
      cells := cells + [cell];
    }
    r := Ok(cells);
  }

  method DecodeCellList(crc: Crc, data: seq<byte>, reader: BocReader, l: Layout, c: Counts, roots: seq<nat>)
    returns (r: Result<Header, BocError>)
    requires reader.len == |data| && reader.offset <= |data|
    requires c.cells >= 1 && forall i :: 0 <= i < |roots| ==> roots[i] < c.cells
    modifies reader
    ensures r == DecodeCells(crc, data, l, c, roots, old(reader.offset))
  {
    hide ReadRawCell, RawCell, FromLittleEndian, TotalLen, ReadCells;
    var indexSize := if l.hasIndex then c.cells * l.offsetSize else 0;
    if !reader.Require(indexSize + c.totalSize + BitValue(l.hasCrc) * 4) { return Err(UnexpectedEof); }
    reader.Advance(indexSize);
    var start := reader.offset;
    var cells := ReadCellList(data, reader, c.cells, l.refSize);
    if cells.Err? { return Err(cells.error); }
    if start + c.totalSize != reader.offset { return Err(InvalidTotalSize); }
    if l.hasCrc {
      if !reader.Require(4) { return Err(UnexpectedEof); }
      ReadCellsInside(data, start, c.cells, l.refSize, []);
      if FromLittleEndian(data[reader.offset..reader.offset + 4]) != crc(data[..reader.offset]) {
        return Err(InvalidChecksum);
      }
    }
    r := Ok(Header(l.refSize, cells.value, roots));
  }

  /** Raw cells cannot describe more than a cell can hold. */
  lemma {:induction false} RawCellFits(raw: seq<byte>, cells: seq<Cell>, count: nat, size: nat)
    requires RawCell(raw, size) && FromRawCell(raw, cells, count, size).Ok?
    ensures FromRawCell(raw, cells, count, size).value.Fits()
  {
    hide Descriptor.Mask, BytesToBits;
    var d := Descriptor(raw[0], raw[1]);
    var at := 2 + d.HashesLen() + d.DataLen();
    ReadRefsLength(raw, at, d.RefCount(), cells, count, size);
    assert d.DataLen() <= 127 || (d.DataLen() == 128 && !d.Aligned());
  }

  lemma {:induction false} ReadRefsLength(raw: seq<byte>, at: nat, n: nat, cells: seq<Cell>, count: nat, size: nat)
    requires at + n * size <= |raw| && ReadRefs(raw, at, n, cells, count, size).Ok?
    ensures |ReadRefs(raw, at, n, cells, count, size).value| == n
    decreases n
  {
    if n != 0 {
      assert n * size == size + (n - 1) * size;
      ReadRefsLength(raw, at + size, n - 1, cells, count, size);
    }
  }

  /** Assembles the cell trees, last cell of the file first. */
  method FinalizeCells(sha: Sha, h: Header) returns (r: Result<seq<Cell>, BocError>)
    requires Sound(h)
    ensures r == Finalize(sha, h.cells, |h.cells|, h.refSize)
  {
    hide FromRawCell, RawCell, Finalizable;
    var res: seq<Cell> := [];
    var i := |h.cells|;
    while i > 0
      invariant 0 <= i <= |h.cells|
      invariant Finalize(sha, h.cells[i..], |h.cells|, h.refSize) == Ok(res)
    {
      i := i - 1;
      var raw := h.cells[i];
      assert h.cells[i..][0] == raw && h.cells[i..][1..] == h.cells[i + 1..];
      var ctx := FromRawCell(raw, res, |h.cells|, h.refSize);
      if ctx.Err? {
        FinalizeError(sha, h.cells, i, |h.cells|, h.refSize);
        return Err(ctx.error);
      }
      RawCellFits(raw, res, |h.cells|, h.refSize);
      var hashes := ComputeHashes(sha, ctx.value);
      if hashes.Err? {
        FinalizeError(sha, h.cells, i, |h.cells|, h.refSize);
        return Err(InvalidBocCell);
      }
      res := res + [ctx.value];
    }
    assert h.cells[0..] == h.cells;
    r := Ok(res);
  }

  lemma {:induction false} FinalizeError(sha: Sha, cells: seq<seq<byte>>, i: nat, count: nat, size: nat)
    requires AllRaw(cells, size) && i <= |cells| && Finalize(sha, cells[i..], count, size).Err?
    ensures Finalize(sha, cells, count, size) == Finalize(sha, cells[i..], count, size)
  {
    hide FromRawCell, RawCell, Finalizable;
    if i > 0 {
      assert cells[i - 1..][1..] == cells[i..];
      FinalizeError(sha, cells, i - 1, count, size);
    } else {
      assert cells[0..] == cells;
    }
  }
}
