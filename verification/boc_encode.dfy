/** Writing a bag of cells: header, cells from the highest number down, optional checksum. */
module BocEncode {
  import opened Cells
  import opened CellHash
  import opened Pruning
  import opened CellGraph
  import opened BocFill
  import opened BocCells

  type word = x: int | 0 <= x < 0x1_0000_0000
  type Crc = seq<byte> -> word

  const U32_SIZE: nat := 0x1_0000_0000

  const GENERIC: seq<byte> := [0xb5, 0xee, 0x9c, 0x72]

  function LittleEndian(v: word): (s: seq<byte>)
    ensures |s| == 4
  {
    [v % 256, v / 256 % 256, v / 65536 % 256, v / 16777216]
  }

  function FromLittleEndian(s: seq<byte>): nat
    requires |s| == 4
  {
    BytesUint([s[3], s[2], s[1], s[0]])
  }

  lemma {:induction false} LittleEndianRoundTrip(v: word)
    ensures FromLittleEndian(LittleEndian(v)) == v
  {
    var s := LittleEndian(v);
    assert [s[3], s[2], s[1], s[0]] == UintBytes(v, 4) by {
      assert UintBytes(v / 65536, 2) == [v / 16777216 % 256, v / 65536 % 256];
    }
    UintRoundTrip(v, 4);
    assert Pow256(2) == 65536 && Pow256(4) == 65536 * Pow256(2);
  }

  // ---------------------------------------------------------------- what is written

  function RefSize(st: Numbering): nat { NumberOfBytesToFit(|st.cells|) }

  function TotalCellsSize(st: Numbering): nat {
    st.dataSize + 2 * |st.cells| + RefSize(st) * st.refCount
  }

  function OffsetSize(st: Numbering): nat { NumberOfBytesToFit(TotalCellsSize(st)) }

  /** Field widths for which the header can be written at all. */
  predicate Writable(st: Numbering) { RefSize(st) <= 4 && OffsetSize(st) <= 8 }

  function RootBytes(st: Numbering, roots: seq<nat>, size: nat): seq<byte>
    requires forall i :: 0 <= i < |roots| ==> roots[i] < |st.cells|
  {
    if roots == [] then []
    else RootBytes(st, roots[..|roots| - 1], size) + UintBytes(|st.cells| - roots[|roots| - 1] - 1, size)
  }

  function HeaderBytes(st: Numbering, roots: seq<nat>, includeCrc: bool): seq<byte>
    requires Writable(st) && forall i :: 0 <= i < |roots| ==> roots[i] < |st.cells|
  {
    GENERIC
    + [RefSize(st) + 64 * BitValue(includeCrc), OffsetSize(st)]
    + UintBytes(|st.cells|, RefSize(st))
    + UintBytes(|roots|, RefSize(st))
    + UintBytes(0, RefSize(st))
    + UintBytes(TotalCellsSize(st), OffsetSize(st))
    + RootBytes(st, roots, RefSize(st))
  }

  /** All cells, the last one of the list first. */
  function CellsBytes(sha: Sha, st: Numbering, cells: seq<Cell>, size: nat, w: bool): seq<byte>
    requires Bounded(st)
  {
    if cells == [] then []
    else CellBytes(sha, st, cells[|cells| - 1], size, w) + CellsBytes(sha, st, cells[..|cells| - 1], size, w)
  }

  function BodyBytes(sha: Sha, st: Numbering, roots: seq<nat>, w: bool, includeCrc: bool): seq<byte>
    requires Bounded(st) && Writable(st) && forall i :: 0 <= i < |roots| ==> roots[i] < |st.cells|
  {
    HeaderBytes(st, roots, includeCrc) + CellsBytes(sha, st, st.cells, RefSize(st), w)
  }

  function Encoded(sha: Sha, crc: Crc, st: Numbering, roots: seq<nat>, w: bool, includeCrc: bool): seq<byte>
    requires Bounded(st) && Writable(st) && forall i :: 0 <= i < |roots| ==> roots[i] < |st.cells|
  {
    var body := BodyBytes(sha, st, roots, w, includeCrc);
    body + if includeCrc then LittleEndian(crc(body)) else []
  }

  // ---------------------------------------------------------------- writing it

  datatype Stats = Stats(offsetSize: nat, refSize: nat, totalCellsSize: nat, totalSize: nat)

  method ComputeStats(h: BocHeader) returns (s: Stats)
    requires h.Valid()
    ensures s.refSize == RefSize(h.State()) && s.totalCellsSize == TotalCellsSize(h.State())
    ensures s.offsetSize == OffsetSize(h.State())
    ensures s.totalSize ==
      6 + s.refSize * (3 + |h.rootRevIndices|) + s.offsetSize + s.totalCellsSize + 4 * BitValue(h.includeCrc)
  {
    hide NumberOfBytesToFit;
    var refSize := NumberOfBytesToFit(h.cellCount);
    var totalCellsSize := h.totalDataSize + h.cellCount * 2 + refSize * h.referenceCount;
    var offsetSize := NumberOfBytesToFit(totalCellsSize);
    var totalSize := 4 + 2 + refSize * (3 + |h.rootRevIndices|) + offsetSize + totalCellsSize + BitValue(h.includeCrc) * 4;
    s := Stats(offsetSize, refSize, totalCellsSize, totalSize);
  }

  ghost predicate RootsInRange(h: BocHeader)
    reads h
  {
    forall i :: 0 <= i < |h.rootRevIndices| ==> h.rootRevIndices[i] < |h.State().cells|
  }

  method EncodeHeader(h: BocHeader, before: seq<byte>) returns (s: Stats, target: seq<byte>)
    requires h.Valid() && Writable(h.State()) && RootsInRange(h)
    ensures s.refSize == RefSize(h.State())
    ensures target == before + HeaderBytes(h.State(), h.rootRevIndices, h.includeCrc)
  {
    hide NumberOfBytesToFit, UintBytes, TotalCellsSize, RefSize, OffsetSize;
    s := ComputeStats(h);
    var rootCount := |h.rootRevIndices|;
    var flags := s.refSize + 64 * BitValue(h.includeCrc);
    ghost var head := GENERIC + [flags, s.offsetSize] + UintBytes(h.cellCount, s.refSize)
      + UintBytes(rootCount, s.refSize) + UintBytes(0, s.refSize) + UintBytes(s.totalCellsSize, s.offsetSize);
    target := before + GENERIC;
    target := target + [flags, s.offsetSize];
    target := target + UintBytes(h.cellCount, s.refSize);
    target := target + UintBytes(rootCount, s.refSize);
    target := target + UintBytes(0, s.refSize);
    target := target + UintBytes(s.totalCellsSize, s.offsetSize);
    for i := 0 to |h.rootRevIndices|
      invariant target == before + head + RootBytes(h.State(), h.rootRevIndices[..i], s.refSize)
    {
      var rootIndex := h.cellCount - h.rootRevIndices[i] - 1;
      target := target + UintBytes(rootIndex, s.refSize);
      assert h.rootRevIndices[..i + 1][..i] == h.rootRevIndices[..i];
    }
    assert h.rootRevIndices[..|h.rootRevIndices|] == h.rootRevIndices;
  }

  /** Writes the cells of a chunk, the last one first. */
  method EncodeCellsChunk(sha: Sha, h: BocHeader, chunk: seq<Cell>, refSize: nat, before: seq<byte>)
    returns (target: seq<byte>)
    requires h.Valid()
    ensures target == before + CellsBytes(sha, h.State(), chunk, refSize, h.withoutHashes)
  {
    hide CellBytes;
    target := before;
    var i := |chunk|;
    assert chunk[..|chunk|] == chunk;
    while i > 0
      invariant 0 <= i <= |chunk|
      invariant target + CellsBytes(sha, h.State(), chunk[..i], refSize, h.withoutHashes)
        == before + CellsBytes(sha, h.State(), chunk, refSize, h.withoutHashes)
    {
      i := i - 1;
      ghost var was := target;
      target := EncodeCell(sha, h, chunk[i], refSize, target);
      assert chunk[..i + 1][..i] == chunk[..i] && chunk[..i + 1][i] == chunk[i];
      assert was + CellsBytes(sha, h.State(), chunk[..i + 1], refSize, h.withoutHashes)
        == target + CellsBytes(sha, h.State(), chunk[..i], refSize, h.withoutHashes);
    }
  }

  /** The body of that loop. */
  method EncodeCell(sha: Sha, h: BocHeader, cell: Cell, refSize: nat, before: seq<byte>) returns (target: seq<byte>)
    requires h.Valid()
    ensures target == before + CellBytes(sha, h.State(), cell, refSize, h.withoutHashes)
  {
    hide ReprHash, HashesAndDepths, Pack, HashedD1, Cell.D1, Cell.D2, Levels, RefBytes;
    target := before + [EncodedD1(cell, h.withoutHashes), cell.D2()];
    if cell.storeHashes && !h.withoutHashes {
      target := EncodeHashes(sha, cell, target);
    }
    target := target + cell.Data();
    ghost var prefix := target;
    for i := 0 to |cell.refs|
      invariant target == prefix + RefsBytes(sha, h.State(), cell.refs[..i], refSize)
    {
      var child := ReprHash(sha, cell.refs[i]);
      ghost var was := target;
      if child in h.revIndices {
        target := target + UintBytes(h.cellCount - h.revIndices[child] - 1, refSize);
      }
      RefBytesCases(sha, h.State(), cell.refs[i], refSize);
      assert target == was + RefBytes(sha, h.State(), cell.refs[i], refSize);
      assert cell.refs[..i + 1][..i] == cell.refs[..i];
    }
    assert cell.refs[..|cell.refs|] == cell.refs;
  }

  lemma {:induction false} RefBytesCases(sha: Sha, st: Numbering, c: Cell, size: nat)
    requires Bounded(st)
    ensures RefBytes(sha, st, c, size) ==
      if ReprHash(sha, c) in st.indices then UintBytes(|st.cells| - st.indices[ReprHash(sha, c)] - 1, size) else []
  {
  }

  /** Hashes of all levels of the cell, then their depths. */
  method EncodeHashes(sha: Sha, cell: Cell, before: seq<byte>) returns (target: seq<byte>)
    ensures target == before + HashesAndDepths(sha, cell)
  {
    hide HashAt, DepthAt, DepthBytes, Levels;
    target := before;
    var levels := Levels(cell.mask);
    ghost var hashes, depths := HashesOf(sha, cell, levels), DepthsOf(cell, levels);
    for i := 0 to |levels|
      invariant target == before + HashesBytes(hashes[..i])
    {
      target := target + HashAt(sha, cell, levels[i]);
      assert hashes[..i + 1][..i] == hashes[..i];
    }
    assert hashes[..|hashes|] == hashes;
    for i := 0 to |levels|
      invariant target == before + HashesBytes(hashes) + DepthsBytes(depths[..i])
    {
      target := target + DepthBytes(DepthAt(cell, levels[i]));
      assert depths[..i + 1][..i] == depths[..i];
    }
    assert depths[..|depths|] == depths;
  }

  /** Appends the whole bag to a buffer; the checksum covers what was appended. */
  method Encode(sha: Sha, crc: Crc, h: BocHeader, before: seq<byte>) returns (target: seq<byte>)
    requires h.Valid() && Writable(h.State()) && RootsInRange(h)
    ensures target == before + Encoded(sha, crc, h.State(), h.rootRevIndices, h.withoutHashes, h.includeCrc)
  {
    hide HeaderBytes, CellsBytes, LittleEndian;
    var stats;
    stats, target := EncodeHeader(h, before);
    target := EncodeCellsChunk(sha, h, h.revCells, stats.refSize, target);
    if h.includeCrc {
      assert target[|before|..] == BodyBytes(sha, h.State(), h.rootRevIndices, h.withoutHashes, h.includeCrc);
      target := target + LittleEndian(crc(target[|before|..]));
    }
  }
}
