/** Pruned branches, and what replacing subtrees by them keeps. */
module Pruning {
  import opened Cells
  import opened CellHash

  // ---------------------------------------------------------------- making a pruned branch

  /** The levels of a mask in ascending order, level zero first. */
  function Levels(m: LevelMask): (s: seq<nat>)
    ensures |s| == m.Level() + 1 && s[0] == 0
    ensures forall level :: level <= 3 && m.Contains(level) ==> s[m.HashIndex(level)] == level
    ensures forall i :: 0 <= i < |s| ==> s[i] <= 3
  {
    [0] + (if m.l1 then [1] else []) + (if m.l2 then [2] else []) + (if m.l3 then [3] else [])
  }

  /** The mask byte `1 << merkleDepth`, cut to three bits. */
  function DepthBit(merkleDepth: nat): LevelMask {
    LevelMask(merkleDepth == 0, merkleDepth == 1, merkleDepth == 2)
  }

  function PrunedMask(c: Cell, merkleDepth: nat): LevelMask { c.mask.Or(DepthBit(merkleDepth)) }

  /** Only the levels below the new one are written down. */
  function KeptLevels(c: Cell, merkleDepth: nat): seq<nat> { Levels(c.mask.And(FromLevel(merkleDepth))) }

  function HashesOf(sha: Sha, c: Cell, levels: seq<nat>): (s: seq<Digest>)
    ensures |s| == |levels|
  {
    seq(|levels|, i requires 0 <= i < |levels| => HashAt(sha, c, levels[i]))
  }

  function DepthsOf(c: Cell, levels: seq<nat>): (s: seq<nat>)
    ensures |s| == |levels|
  {
    seq(|levels|, i requires 0 <= i < |levels| => DepthAt(c, levels[i]))
  }

  function PrunedData(sha: Sha, c: Cell, merkleDepth: nat): seq<byte> {
    var levels := KeptLevels(c, merkleDepth);
    [1, PrunedMask(c, merkleDepth).ToByte()] + HashesBytes(HashesOf(sha, c, levels)) + DepthsBytes(DepthsOf(c, levels))
  }

  /** The pruned branch that stands for `c` below `merkleDepth` Merkle cells. */
  function PrunedCell(sha: Sha, c: Cell, merkleDepth: nat): Cell {
    Cell(true, false, PrunedMask(c, merkleDepth), BytesToBits(PrunedData(sha, c, merkleDepth)), [])
  }

  /** A cell can be pruned when its mask has no level above the one that pruning adds. */
  predicate Prunable(c: Cell, merkleDepth: nat) {
    merkleDepth <= 2 && forall level :: merkleDepth + 1 < level <= 3 ==> !c.mask.Contains(level)
  }

  /** The level mask a builder gives to a cell of these bits and references. */
  function BuiltMask(exotic: bool, bits: seq<bool>, refs: seq<Cell>): LevelMask {
    MaskFromData(exotic && |bits| >= 8, Pack(bits), MaskUnion(refs))
  }

  function MaskFromData(typed: bool, data: seq<byte>, children: LevelMask): LevelMask
    requires typed ==> data != []
  {
    if typed then
      match ExoticType(data[0])
      // A pruned branch of one byte or less than two is refused later, whatever its mask.
      case Some(PrunedBranch) => if |data| > 1 then FromByte(data[1]) else NO_LEVELS
      case Some(LibraryReference) => NO_LEVELS
      case Some(_) => children.Virtualize()
      case None => children
    else children
  }

  /** Appends to a builder; a store that does not fit leaves the builder as it was. */
  function Stored(builder: seq<bool>, bits: seq<bool>): seq<bool> {
    if |builder| + |bits| <= MAX_BIT_LEN then builder + bits else builder
  }

  lemma {:induction false} StoredBytes(written: seq<byte>, bytes: seq<byte>)
    requires 8 * (|written| + |bytes|) <= MAX_BIT_LEN
    ensures Stored(BytesToBits(written), BytesToBits(bytes)) == BytesToBits(written + bytes)
  {
    BytesToBitsConcat(written, bytes);
  }

  /** Writes hashes one after the other; the fourth does not fit and is dropped. */
  method StoreHashes(head: seq<byte>, hashes: seq<Digest>) returns (builder: seq<bool>, ghost written: seq<byte>)
    requires |head| == 2 && |hashes| <= 4
    ensures builder == BytesToBits(written) && |written| == 2 + 32 * (if |hashes| <= 3 then |hashes| else 3)
    ensures written[..2] == head && (|hashes| <= 3 ==> written == head + HashesBytes(hashes))
    ensures |hashes| <= 3 ==> builder == BytesToBits(head + HashesBytes(hashes))
  {
    builder, written := BytesToBits(head), head;
    for i := 0 to |hashes|
      invariant builder == BytesToBits(written) && |written| == 2 + 32 * (if i <= 3 then i else 3)
      invariant written[..2] == head && (i <= 3 ==> written == head + HashesBytes(hashes[..i]))
    {
      builder := Stored(builder, BytesToBits(hashes[i]));
      if i < 3 {
        StoredBytes(written, hashes[i]);
        written := written + hashes[i];
        assert hashes[..i + 1][..i] == hashes[..i];
      }
    }
    assert hashes[..|hashes|] == hashes;
  }

  method StoreDepths(start: seq<bool>, ghost before: seq<byte>, depths: seq<nat>)
    returns (builder: seq<bool>, ghost written: seq<byte>)
    requires start == BytesToBits(before) && 8 * (|before| + 2 * |depths|) <= MAX_BIT_LEN
    ensures builder == BytesToBits(written) && written == before + DepthsBytes(depths)
    ensures |builder| == |start| + 16 * |depths|
  {
    builder, written := start, before;
    for i := 0 to |depths|
      invariant builder == BytesToBits(written)
      invariant written == before + DepthsBytes(depths[..i]) && |written| == |before| + 2 * i
    {
      builder := Stored(builder, BytesToBits(DepthBytes(depths[i])));
      StoredBytes(written, DepthBytes(depths[i]));
      written := written + DepthBytes(depths[i]);
      assert depths[..i + 1][..i] == depths[..i];
    }
    assert depths[..|depths|] == depths;
  }

  /** Writes the data of a pruned branch: type, mask, kept hashes, kept depths. */
  method WritePruned(sha: Sha, c: Cell, merkleDepth: nat) returns (builder: seq<bool>, ghost written: seq<byte>)
    ensures builder == BytesToBits(written)
    ensures |written| == if |KeptLevels(c, merkleDepth)| == 4 then 106 else 2 + 34 * |KeptLevels(c, merkleDepth)|
    ensures written[..2] == [1, PrunedMask(c, merkleDepth).ToByte()]
    ensures |KeptLevels(c, merkleDepth)| <= 3 ==> written == PrunedData(sha, c, merkleDepth)
    ensures |KeptLevels(c, merkleDepth)| <= 3 ==> builder == BytesToBits(PrunedData(sha, c, merkleDepth))
  {
    var levels := KeptLevels(c, merkleDepth);
    var hashes, depths := HashesOf(sha, c, levels), DepthsOf(c, levels);
    DepthsBytesLength(depths);
    ghost var withHashes;
    builder, withHashes := StoreHashes([1, PrunedMask(c, merkleDepth).ToByte()], hashes);
    builder, written := StoreDepths(builder, withHashes, depths);
    assert written[..2] == withHashes[..2];
  }

  /** Creates a pruned branch for the given Merkle depth, or fails when the cell cannot be pruned there. */
  method MakePrunedBranch(sha: Sha, c: Cell, merkleDepth: nat) returns (r: Result<Cell, Error>)
    requires merkleDepth < 8
    ensures r == if Prunable(c, merkleDepth) then Ok(PrunedCell(sha, c, merkleDepth)) else Err(InvalidCell)
  {
    var builder, written := WritePruned(sha, c, merkleDepth);
    PrunedSize(c, merkleDepth, written);
    LengthTells(c, merkleDepth, |written|);
    var cell := Cell(true, false, BuiltMask(true, builder, []), builder, []);
    PrunedChecks(sha, cell);
    var computed := ComputeHashes(sha, cell);
    if computed.Err? { return Err(computed.error); }
    return Ok(cell);
  }

  /** The finalizer's length check accepts the written bytes exactly when the cell can be pruned. */
  lemma {:induction false} LengthTells(c: Cell, merkleDepth: nat, length: nat)
    requires length == if |KeptLevels(c, merkleDepth)| == 4 then 106 else 2 + 34 * |KeptLevels(c, merkleDepth)|
    ensures Prunable(c, merkleDepth) ==> |KeptLevels(c, merkleDepth)| <= 3
    ensures Prunable(c, merkleDepth) <==>
      var level := PrunedMask(c, merkleDepth).Level(); level != 0 && 8 * length == 16 + 272 * level
  {
    CountMatches(c, merkleDepth);
  }

  /** The hashes written are as many as the levels of the new mask exactly when the cell can be pruned. */
  lemma {:induction false} CountMatches(c: Cell, merkleDepth: nat)
    ensures Prunable(c, merkleDepth) <==>
      |KeptLevels(c, merkleDepth)| <= 3 && |KeptLevels(c, merkleDepth)| == PrunedMask(c, merkleDepth).Level()
    ensures |KeptLevels(c, merkleDepth)| == 4 ==> PrunedMask(c, merkleDepth).Level() == 3
    ensures merkleDepth <= 2 ==> PrunedMask(c, merkleDepth).Level() >= 1
  {
    assert c.mask.Contains(2) == c.mask.l2 && c.mask.Contains(3) == c.mask.l3;
  }

  /** What the builder and the finalizer read back from the written bytes. */
  lemma {:induction false} PrunedSize(c: Cell, merkleDepth: nat, written: seq<byte>)
    requires |written| >= 2 && written[..2] == [1, PrunedMask(c, merkleDepth).ToByte()]
    ensures Pack(BytesToBits(written)) == written
    ensures written[0] == 1 && written[1] == PrunedMask(c, merkleDepth).ToByte()
    ensures BuiltMask(true, BytesToBits(written), []) == PrunedMask(c, merkleDepth)
  {
    PackOfBits(written);
    MaskByteRoundTrip(PrunedMask(c, merkleDepth));
    assert written[0] == written[..2][0] && written[1] == written[..2][1];
  }

  lemma {:induction false} PrunedChecks(sha: Sha, cell: Cell)
    requires cell.exotic && cell.refs == [] && |cell.bits| >= 16
    requires cell.Data()[0] == 1 && cell.Data()[1] == cell.mask.ToByte()
    ensures Shallow(cell)
    ensures WellFormed(sha, cell) <==> cell.mask.Level() != 0 && |cell.bits| == 16 + 272 * cell.mask.Level()
  {
  }
}
