/** Cells of a bag as bytes: descriptor, optional hashes, data, and child indices. */
module BocCells {
  import opened Cells
  import opened CellHash
  import opened Labels
  import opened Pruning
  import opened CellGraph
  import opened BocFill

  datatype BocError =
    | UnexpectedEof | UnknownBocTag | InvalidHeader | InvalidRefSize | InvalidOffsetSize | RootCellNotFound
    | UnexpectedMultipleRoots | TooManyRootCells | AbsentCellsNotSupported | TooFewRootCells | InvalidTotalSize
    | RootOutOfBounds | InvalidRef | UnnormalizedCell | InvalidRefOrder | InvalidBocCell | InvalidChecksum

  // ---------------------------------------------------------------- big-endian numbers

  function Pow256(n: nat): (p: nat)
    ensures p >= 1
  {
    if n == 0 then 1 else 256 * Pow256(n - 1)
  }

  /** The low `n` bytes of a number, most significant first. */
  function UintBytes(v: nat, n: nat): (s: seq<byte>)
    ensures |s| == n
  {
    if n == 0 then [] else UintBytes(v / 256, n - 1) + [v % 256]
  }

  function BytesUint(s: seq<byte>): nat {
    if s == [] then 0 else 256 * BytesUint(s[..|s| - 1]) + s[|s| - 1]
  }

  lemma {:induction false} UintRoundTrip(v: nat, n: nat)
    ensures BytesUint(UintBytes(v, n)) == v % Pow256(n)
  {
    if n != 0 {
      UintRoundTrip(v / 256, n - 1);
      assert UintBytes(v, n)[..n - 1] == UintBytes(v / 256, n - 1);
      ModSplit(v, Pow256(n - 1));
    }
  }

  lemma {:induction false} ModSplit(v: nat, p: nat)
    requires p >= 1
    ensures v % (256 * p) == 256 * ((v / 256) % p) + v % 256
  {
    var q, r := v / 256 / p, (v / 256) % p;
    assert v / 256 == q * p + r;
    assert v == 256 * (v / 256) + v % 256;
    assert v == q * (256 * p) + (256 * r + v % 256);
    assert 256 * r + v % 256 < 256 * p;
    ModUnique(v, q, 256 * p, 256 * r + v % 256);
  }

  lemma {:induction false} ModUnique(v: nat, q: nat, p: nat, r: nat)
    requires v == q * p + r && r < p
    ensures v % p == r
  {
    assert v == v / p * p + v % p;
    assert (v / p - q) * p == r - v % p;
    SmallMultiple(v / p - q, p);
  }

  lemma {:induction false} SmallMultiple(d: int, p: int)
    requires p >= 0
    ensures -p < d * p < p ==> d == 0
  {
    if d >= 1 {
      assert (d - 1) * p >= 0;
    } else if d <= -1 {
      assert (-1 - d) * p >= 0;
    }
  }

  lemma {:induction false} SmallMod(v: nat, p: nat)
    requires v < p
    ensures v % p == v
  {
  }

  lemma {:induction false} BytesUintBound(s: seq<byte>)
    ensures BytesUint(s) < Pow256(|s|)
  {
    if s != [] { BytesUintBound(s[..|s| - 1]); }
  }

  const U64_SIZE: nat := 0x1_0000_0000_0000_0000

  function LeadingZeros64(l: nat): int { 64 - BitLength(l) }

  function NumberOfBytesToFit(l: nat): nat { 8 - LeadingZeros64(l) / 8 }

  lemma {:induction false} Pow256IsPow2(n: nat)
    ensures Pow256(n) == Pow2(8 * n)
  {
    if n != 0 {
      Pow256IsPow2(n - 1);
      Pow2Sum(8, 8 * n - 8);
      Pow2Of8();
    }
  }

  lemma {:induction false} Pow2Sum(a: nat, b: nat)
    ensures Pow2(a + b) == Pow2(a) * Pow2(b)
  {
    if a != 0 { Pow2Sum(a - 1, b); }
  }

  lemma {:induction false} BitLengthLower(n: nat)
    requires n > 0
    ensures BitLength(n) >= 1 && Pow2(BitLength(n) - 1) <= n
  {
    if n > 1 { BitLengthLower(n / 2); }
  }

  /** The number of bytes is enough for the number, and no fewer would be. */
  lemma {:induction false} BytesToFit(l: nat, most: nat)
    requires l < Pow256(most) && most <= 8
    ensures NumberOfBytesToFit(l) <= most && l < Pow256(NumberOfBytesToFit(l))
    ensures l > 0 ==> NumberOfBytesToFit(l) >= 1 && Pow256(NumberOfBytesToFit(l) - 1) <= l
  {
    hide BitLength, Pow2, Pow256;
    var b := BitLength(l);
    Pow256IsPow2(most);
    BitLengthMax(l, 8 * most);
    var k := NumberOfBytesToFit(l);
    BitLengthBound(l);
    Pow256IsPow2(k);
    Pow2Monotone(b, 8 * k);
    if l > 0 {
      BitLengthLower(l);
      Pow256IsPow2(k - 1);
      Pow2Monotone(8 * (k - 1), b - 1);
    }
  }

  // ---------------------------------------------------------------- descriptors

  datatype Descriptor = Descriptor(d1: byte, d2: byte) {
    function RefCount(): nat { d1 % 8 }
    function Exotic(): bool { d1 / 8 % 2 == 1 }
    function StoreHashes(): bool { d1 / 16 % 2 == 1 }
    function Mask(): LevelMask { FromByte(d1 / 32) }
    /** All descriptor bits but the mask are those of an absent cell. */
    function Absent(): bool { d1 % 32 == 23 }
    function Aligned(): bool { d2 % 2 == 0 }
    function DataLen(): nat { d2 % 2 + d2 / 2 }
    /** Length of stored hashes and depths. */
    function HashesLen(): nat { if StoreHashes() then (Mask().Level() + 1) * 34 else 0 }
  }

  /** First descriptor byte as it is written; the store-hashes flag can be left out. */
  function EncodedD1(c: Cell, w: bool): byte { if w then HashedD1(c, c.mask) else c.D1() }

  lemma {:induction false} DescriptorFields(c: Cell, w: bool)
    requires c.Fits()
    ensures var d := Descriptor(EncodedD1(c, w), c.D2());
      && d.RefCount() == |c.refs| && d.Exotic() == c.exotic && d.StoreHashes() == (c.storeHashes && !w)
      && d.Mask() == c.mask && !d.Absent() && d.Aligned() == (|c.bits| % 8 == 0) && d.DataLen() == |c.Data()|
  {
    hide Pack;
    var stored := if w then false else c.storeHashes;
    PackedByte(c.mask.ToByte(), BitValue(stored), BitValue(c.exotic), |c.refs| % 8);
    MaskByteRoundTrip(c.mask);
  }

  lemma {:induction false} PackedByte(m: nat, s: nat, e: nat, r: nat)
    requires m < 8 && s < 2 && e < 2 && r < 8
    ensures var d := 32 * m + 16 * s + 8 * e + r;
      d < 256 && d / 32 == m && d / 16 % 2 == s && d / 8 % 2 == e && d % 8 == r && d % 32 == 16 * s + 8 * e + r
  {
  }

  // ---------------------------------------------------------------- writing a cell

  function HashesAndDepths(sha: Sha, c: Cell): seq<byte> {
    HashesBytes(HashesOf(sha, c, Levels(c.mask))) + DepthsBytes(DepthsOf(c, Levels(c.mask)))
  }

  /** Number of a cell counted from the front of the file. */
  function FileIndex(sha: Sha, st: Numbering, c: Cell): nat
    requires Bounded(st) && ReprHash(sha, c) in st.indices
  {
    |st.cells| - st.indices[ReprHash(sha, c)] - 1
  }

  function RefBytes(sha: Sha, st: Numbering, c: Cell, size: nat): seq<byte>
    requires Bounded(st)
  {
    if ReprHash(sha, c) in st.indices then UintBytes(FileIndex(sha, st, c), size) else []
  }

  function RefsBytes(sha: Sha, st: Numbering, refs: seq<Cell>, size: nat): seq<byte>
    requires Bounded(st)
  {
    if refs == [] then []
    else RefsBytes(sha, st, refs[..|refs| - 1], size) + RefBytes(sha, st, refs[|refs| - 1], size)
  }

  function CellBytes(sha: Sha, st: Numbering, c: Cell, size: nat, w: bool): seq<byte>
    requires Bounded(st)
  {
    [EncodedD1(c, w), c.D2()]
    + (if c.storeHashes && !w then HashesAndDepths(sha, c) else [])
    + c.Data()
    + RefsBytes(sha, st, c.refs, size)
  }

  /** Stored hashes and depths stand behind the descriptor, one of each for every level present, lowest level first. */
  lemma {:induction false} StoredAt(sha: Sha, st: Numbering, c: Cell, size: nat, level: nat)
    requires Bounded(st) && c.storeHashes && level <= 3 && c.mask.Contains(level) && DepthAt(c, level) <= MAX_DEPTH
    ensures var bytes, i, n := CellBytes(sha, st, c, size, false), c.mask.HashIndex(level), c.mask.Level() + 1;
      var at := 2 + 32 * n + 2 * i;
      && i < n && |bytes| >= 2 + 34 * n
      && bytes[2 + 32 * i..2 + 32 * i + 32] == HashAt(sha, c, level)
      && bytes[at] as int * 256 + bytes[at + 1] as int == DepthAt(c, level)
  {
    hide HashAt, DepthAt, Pack, RefsBytes, HashesBytes, DepthsBytes, Cell.D1, Cell.D2, HashedD1;
    var levels := Levels(c.mask);
    var i, n := c.mask.HashIndex(level), |levels|;
    var hashes, depths := HashesOf(sha, c, levels), DepthsOf(c, levels);
    var head, tail := [EncodedD1(c, false), c.D2()], c.Data() + RefsBytes(sha, st, c.refs, size);
    HashesBytesLength(hashes);
    DepthsBytesLength(depths);
    HashesBytesAt(hashes, i);
    DepthsBytesAt(depths, i);
    assert CellBytes(sha, st, c, size, false) == head + HashesBytes(hashes) + (DepthsBytes(depths) + tail);
    assert CellBytes(sha, st, c, size, false) == head + HashesBytes(hashes) + DepthsBytes(depths) + tail;
    SliceMiddle(head, HashesBytes(hashes), DepthsBytes(depths) + tail, 32 * i, 32 * i + 32);
    SliceMiddle(head + HashesBytes(hashes), DepthsBytes(depths), tail, 2 * i, 2 * i + 2);
    PairOf(CellBytes(sha, st, c, size, false), 2 + 32 * n, DepthsBytes(depths), 2 * i);
  }

  lemma {:induction false} PairOf(s: seq<byte>, base: nat, t: seq<byte>, k: nat)
    requires base + k + 2 <= |s| && k + 2 <= |t| && s[base + k..base + (k + 2)] == t[k..k + 2]
    ensures s[base + k] == t[k] && s[base + k + 1] == t[k + 1]
  {
    assert s[base + k] == s[base + k..base + (k + 2)][0] && s[base + k + 1] == s[base + k..base + (k + 2)][1];
  }

  // ---------------------------------------------------------------- reading a cell

  function TagOffset(b: byte): nat {
    if b == 0 then 8 else if b % 2 == 1 then 0 else 1 + TagOffset(b / 2)
  }

  /** How many bytes the cell at the front takes. */
  function ReadRawCell(bytes: seq<byte>, refSize: nat): (r: Result<nat, BocError>)
    ensures r.Ok? ==> 2 <= r.value <= |bytes|
  {
    if |bytes| < 2 then Err(UnexpectedEof)
    else
      var d := Descriptor(bytes[0], bytes[1]);
      if d.Absent() then Err(AbsentCellsNotSupported)
      else if d.RefCount() > MAX_REF_COUNT then Err(InvalidRef)
      else if d.StoreHashes() && d.Exotic() && d.RefCount() == 0 && d.Mask().Level() > 0 then Err(UnnormalizedCell)
      else
        var dataEnd := 2 + d.HashesLen() + d.DataLen();
        var total := dataEnd + d.RefCount() * refSize;
        if |bytes| < total then Err(UnexpectedEof)
        else if d.DataLen() > 0 && !d.Aligned() && bytes[dataEnd - 1] % 128 == 0 then Err(UnnormalizedCell)
        else Ok(total)
  }

  /** The data bits of a cell without the completion tag. */
  function DataBits(data: seq<byte>, aligned: bool): seq<bool> {
    if aligned then BytesToBits(data)
    else if data == [] || 8 * |data| <= TagOffset(data[|data| - 1]) then []
    else BytesToBits(data)[..8 * |data| - TagOffset(data[|data| - 1]) - 1]
  }

  /** Children by index, from the cells that were finished already; the last cell of the file comes first. */
  function ReadRefs(raw: seq<byte>, at: nat, n: nat, cells: seq<Cell>, count: nat, size: nat): Result<seq<Cell>, BocError>
    requires at + n * size <= |raw|
    decreases n
  {
    if n == 0 then Ok([])
    else
      assert n * size == size + (n - 1) * size;
      var index := BytesUint(raw[at..at + size]);
      if index >= count then Err(InvalidRef)
      else if count - index - 1 >= |cells| then Err(InvalidRefOrder)
      else
        match ReadRefs(raw, at + size, n - 1, cells, count, size)
        case Err(e) => Err(e)
        case Ok(rest) => Ok([cells[count - index - 1]] + rest)
  }

  predicate RawCell(raw: seq<byte>, refSize: nat) { ReadRawCell(raw, refSize) == Ok(|raw|) }

  function FromRawCell(raw: seq<byte>, cells: seq<Cell>, count: nat, refSize: nat): Result<Cell, BocError>
    requires RawCell(raw, refSize)
  {
    var d := Descriptor(raw[0], raw[1]);
    var at := 2 + d.HashesLen();
    var data := raw[at..at + d.DataLen()];
    match ReadRefs(raw, at + d.DataLen(), d.RefCount(), cells, count, refSize)
    case Err(e) => Err(e)
    case Ok(refs) => Ok(Cell(d.Exotic(), d.StoreHashes(), d.Mask(), DataBits(data, d.Aligned()), refs))
  }

  // ---------------------------------------------------------------- reading back what was written

  /** Reading on from where a part was found. */
  lemma {:induction false} SplitAt(data: seq<byte>, at: nat, a: seq<byte>, b: seq<byte>)
    requires at <= |data| && data[at..] == a + b
    ensures at + |a| <= |data| && data[at..at + |a|] == a && data[at + |a|..] == b
  {
    assert |data[at..]| == |a| + |b|;
    assert data[at..at + |a|] == data[at..][..|a|] == a;
    assert data[at + |a|..] == data[at..][|a|..] == b;
  }

  lemma {:induction false} Regroup(a: seq<byte>, b: seq<byte>, c: seq<byte>)
    ensures (a + b) + c == a + (b + c)
  {
  }

  lemma {:induction false} TagPosition(s: seq<bool>, k: nat)
    requires |s| + 1 + k <= 8
    ensures BitsUint(s + [true] + Repeat(false, k)) < 256
    ensures TagOffset(BitsUint(s + [true] + Repeat(false, k))) == k
  {
    hide Pow2;
    var t := s + [true] + Repeat(false, k);
    BitsUintBound(t);
    Pow2Of8();
    Pow2Monotone(|t|, 8);
    if k != 0 {
      assert t[..|t| - 1] == s + [true] + Repeat(false, k - 1);
      TagPosition(s, k - 1);
      TagNonzero(s, k - 1);
    }
  }

  lemma {:induction false} TagNonzero(s: seq<bool>, k: nat)
    ensures BitsUint(s + [true] + Repeat(false, k)) > 0
  {
    var t := s + [true] + Repeat(false, k);
    if k != 0 {
      assert t[..|t| - 1] == s + [true] + Repeat(false, k - 1);
      TagNonzero(s, k - 1);
    }
  }

  lemma {:induction false} TagBelowTop(b: byte)
    requires TagOffset(b) < 7
    ensures b % 128 != 0
  {
    assert TagOffset(2) == 1 && TagOffset(8) == 3;
    assert TagOffset(32) == 2 + TagOffset(8);
    assert TagOffset(128) == 2 + TagOffset(32);
  }

  lemma {:induction false} LastByte(bits: seq<bool>)
    requires |bits| % 8 != 0
    ensures var data := Pack(bits); data != [] && TagOffset(data[|data| - 1]) == 7 - |bits| % 8
  {
    hide BitsUint, TagOffset, Pack;
    if |bits| < 8 {
      PackShort(bits);
      assert bits + Completion(|bits|) == bits + [true] + Repeat(false, 7 - |bits|);
      TagPosition(bits, 7 - |bits|);
    } else {
      LastByte(bits[8..]);
      PackTail(bits);
    }
  }

  lemma {:induction false} PackShort(bits: seq<bool>)
    requires 0 < |bits| < 8
    ensures Pack(bits) == [BitsToByte(bits + Completion(|bits|))]
  {
    hide BitsToByte;
  }

  lemma {:induction false} PackTail(bits: seq<bool>)
    requires |bits| > 8
    ensures var data, rest := Pack(bits), Pack(bits[8..]);
      data != [] && rest != [] && data[|data| - 1] == rest[|rest| - 1]
  {
    hide BitsToByte;
    assert Pack(bits) == [BitsToByte(bits[..8])] + Pack(bits[8..]);
  }

  /** Data bits survive packing, and a packed tag is never in the top position. */
  lemma {:induction false} DataBitsOfPack(bits: seq<bool>)
    ensures DataBits(Pack(bits), |bits| % 8 == 0) == bits
    ensures |bits| % 8 != 0 ==> Pack(bits) != [] && Pack(bits)[|Pack(bits)| - 1] % 128 != 0
  {
    var data := Pack(bits);
    BitsOfPack(bits);
    if |bits| % 8 == 0 {
      assert bits + [] == bits;
    } else {
      LastByte(bits);
      TagBelowTop(data[|data| - 1]);
      assert (bits + Completion(|bits|))[..|bits|] == bits;
    }
  }

  /** The finished cells that stand for the children. */
  ghost function Resolved(sha: Sha, st: Numbering, refs: seq<Cell>, cells: seq<Cell>): (s: seq<Cell>)
    requires Known(sha, st, refs, |cells|)
    ensures |s| == |refs|
  {
    seq(|refs|, k requires 0 <= k < |refs| =>
      assert KnownAt(sha, st, refs[k], |cells|); cells[st.indices[ReprHash(sha, refs[k])]])
  }

  lemma {:induction false} RefsBytesLength(sha: Sha, st: Numbering, refs: seq<Cell>, size: nat)
    requires Bounded(st) && Known(sha, st, refs, |st.cells|)
    ensures |RefsBytes(sha, st, refs, size)| == |refs| * size
  {
    hide ReprHash;
    if refs != [] {
      RefsBytesLength(sha, st, refs[..|refs| - 1], size);
      assert KnownAt(sha, st, refs[|refs| - 1], |st.cells|);
      assert |refs| * size == (|refs| - 1) * size + size;
    }
  }

  lemma {:induction false} RefsBytesHead(sha: Sha, st: Numbering, refs: seq<Cell>, size: nat)
    requires Bounded(st) && refs != []
    ensures RefsBytes(sha, st, refs, size) == RefBytes(sha, st, refs[0], size) + RefsBytes(sha, st, refs[1..], size)
  {
    hide ReprHash, RefBytes;
    var n := |refs| - 1;
    if n == 0 {
      assert RefsBytes(sha, st, refs[..0], size) == [];
    } else {
      RefsBytesHead(sha, st, refs[..n], size);
      assert refs[..n][1..] == refs[1..][..n - 1];
    }
  }

  /** Child indices lead back to the finished cells. */
  lemma {:induction false} ReadRefsBack(sha: Sha, st: Numbering, refs: seq<Cell>, cells: seq<Cell>, size: nat,
                                        raw: seq<byte>, at: nat)
    requires Bounded(st) && Known(sha, st, refs, |cells|) && |cells| <= |st.cells| <= Pow256(size)
    requires at + |refs| * size <= |raw| && raw[at..at + |refs| * size] == RefsBytes(sha, st, refs, size)
    ensures ReadRefs(raw, at, |refs|, cells, |st.cells|, size) == Ok(Resolved(sha, st, refs, cells))
    decreases |refs|
  {
    hide ReprHash, RefsBytes, Known, Resolved, UintBytes, BytesUint, Pow256;
    if refs == [] {
      NoneResolved(sha, st, cells);
    } else {
      assert |refs| * size == size + (|refs| - 1) * size;
      FirstRefBack(sha, st, refs, cells, size, raw, at);
      ReadRefsBack(sha, st, refs[1..], cells, size, raw, at + size);
    }
  }

  lemma {:induction false} NoneResolved(sha: Sha, st: Numbering, cells: seq<Cell>)
    ensures Known(sha, st, [], |cells|) && Resolved(sha, st, [], cells) == []
  {
  }

  lemma {:induction false} FirstRefBack(sha: Sha, st: Numbering, refs: seq<Cell>, cells: seq<Cell>, size: nat,
                                        raw: seq<byte>, at: nat)
    requires Bounded(st) && Known(sha, st, refs, |cells|) && |cells| <= |st.cells| <= Pow256(size) && refs != []
    requires at + size + (|refs| - 1) * size <= |raw|
    requires raw[at..at + size + (|refs| - 1) * size] == RefsBytes(sha, st, refs, size)
    ensures Known(sha, st, refs[1..], |cells|)
    ensures raw[at + size..at + size + (|refs| - 1) * size] == RefsBytes(sha, st, refs[1..], size)
    ensures var index := BytesUint(raw[at..at + size]);
      && index < |st.cells| && |st.cells| - index - 1 < |cells|
      && Resolved(sha, st, refs, cells) == [cells[|st.cells| - index - 1]] + Resolved(sha, st, refs[1..], cells)
  {
    hide ReprHash, RefsBytes, UintBytes, BytesUint, Pow256;
    RefsBytesHead(sha, st, refs, size);
    assert KnownAt(sha, st, refs[0], |cells|);
    var first, tail := RefBytes(sha, st, refs[0], size), RefsBytes(sha, st, refs[1..], size);
    var cut := raw[..at + size + (|refs| - 1) * size];
    assert cut[at..] == first + tail;
    SplitAt(cut, at, first, tail);
    assert raw[at..at + size] == cut[at..at + size];
    UintRoundTrip(FileIndex(sha, st, refs[0]), size);
    SmallMod(FileIndex(sha, st, refs[0]), Pow256(size));
    forall k | 0 <= k < |refs| - 1
      ensures KnownAt(sha, st, refs[1..][k], |cells|)
    {
      assert KnownAt(sha, st, refs[k + 1], |cells|);
    }
  }

  /** Cells that a reader refuses: pruned branches that claim to store hashes. */
  predicate Refused(c: Cell, w: bool) { c.storeHashes && !w && c.Type().PrunedBranch? }

  lemma {:induction false} HashesAndDepthsLength(sha: Sha, c: Cell)
    ensures |HashesAndDepths(sha, c)| == (c.mask.Level() + 1) * 34
  {
    HashesBytesLength(HashesOf(sha, c, Levels(c.mask)));
    DepthsBytesLength(DepthsOf(c, Levels(c.mask)));
  }

  lemma {:induction false} CellBytesLength(sha: Sha, st: Numbering, c: Cell, size: nat, w: bool)
    requires Bounded(st) && c.Fits() && Known(sha, st, c.refs, |st.cells|)
    ensures |CellBytes(sha, st, c, size, w)| == 2 + ByteLenFull(c, w) + |c.refs| * size
  {
    hide ReprHash, HashesAndDepths, RefsBytes, Pack;
    ByteLenOfData(c);
    HashesAndDepthsLength(sha, c);
    RefsBytesLength(sha, st, c.refs, size);
  }

  /** The reader finds the end of a written cell, whatever follows it, unless the cell is refused. */
  lemma {:induction false} ReadRawBack(sha: Sha, st: Numbering, c: Cell, size: nat, w: bool, rest: seq<byte>)
    requires Bounded(st) && c.Fits() && Known(sha, st, c.refs, |st.cells|)
    ensures var bytes := CellBytes(sha, st, c, size, w);
      ReadRawCell(bytes + rest, size) == if Refused(c, w) then Err(UnnormalizedCell) else Ok(|bytes|)
  {
    hide ReprHash, HashesAndDepths, RefsBytes, Pack, Descriptor.Mask, Descriptor.DataLen, Cell.D1, Cell.D2, HashedD1, DepthsBytes;
    var bytes := CellBytes(sha, st, c, size, w);
    DescriptorFields(c, w);
    HashesAndDepthsLength(sha, c);
    RefsBytesLength(sha, st, c.refs, size);
    DataBitsOfPack(c.bits);
    var d := Descriptor(EncodedD1(c, w), c.D2());
    var start := 2 + d.HashesLen();
    assert (bytes + rest)[0] == EncodedD1(c, w) && (bytes + rest)[1] == c.D2();
    if !Refused(c, w) && c.Data() != [] {
      assert (bytes + rest)[start + |c.Data()| - 1] == c.Data()[|c.Data()| - 1];
    }
  }

  /** A cell that was written and read is the same but for its children and, maybe, its flag. */
  lemma {:induction false} FromRawBack(sha: Sha, st: Numbering, c: Cell, cells: seq<Cell>, size: nat, w: bool)
    requires Bounded(st) && c.Fits() && Known(sha, st, c.refs, |cells|) && |cells| <= |st.cells| <= Pow256(size)
    requires !Refused(c, w)
    ensures var raw := CellBytes(sha, st, c, size, w);
      && RawCell(raw, size)
      && FromRawCell(raw, cells, |st.cells|, size) ==
           Ok(Cell(c.exotic, c.storeHashes && !w, c.mask, c.bits, Resolved(sha, st, c.refs, cells)))
  {
    hide ReprHash, HashesAndDepths, RefsBytes, Pack, ReadRawCell, Resolved, Descriptor.Mask, Descriptor.DataLen;
    hide Cell.D1, Cell.D2, HashedD1, DataBits;
    var raw := CellBytes(sha, st, c, size, w);
    assert Known(sha, st, c.refs, |st.cells|) by {
      assert forall k :: 0 <= k < |c.refs| ==> KnownAt(sha, st, c.refs[k], |cells|);
    }
    ReadRawBack(sha, st, c, size, w, []);
    assert raw + [] == raw;
    DescriptorFields(c, w);
    HashesAndDepthsLength(sha, c);
    RefsBytesLength(sha, st, c.refs, size);
    DataBitsOfPack(c.bits);
    var d := Descriptor(raw[0], raw[1]);
    var at := 2 + d.HashesLen();
    assert raw[at..at + d.DataLen()] == c.Data();
    assert raw[at + d.DataLen()..at + d.DataLen() + |c.refs| * size] == RefsBytes(sha, st, c.refs, size);
    ReadRefsBack(sha, st, c.refs, cells, size, raw, at + d.DataLen());
  }
}
