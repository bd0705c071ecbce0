/** The file format of a bag of cells, stated on bytes alone; the decoder accepts exactly the files that have it. */
module BocFormat {
  import opened Cells
  import opened CellHash
  import opened BocCells
  import opened BocEncode
  import opened BocDecode

  // ---------------------------------------------------------------- numbers and records

  /** The number that a byte string spells, most significant byte first. */
  function BigEndian(s: seq<byte>): nat {
    if s == [] then 0 else Pow256(|s| - 1) * s[0] + BigEndian(s[1..])
  }

  lemma {:induction false} BigEndianIs(s: seq<byte>)
    ensures BytesUint(s) == BigEndian(s)
  {
    if s != [] {
      var n := |s| - 1;
      if n > 0 {
        BigEndianIs(s[1..]);
        BytesUintHead(s);
      }
    }
  }

  lemma {:induction false} Scaled(p: int, v: int)
    ensures 256 * (p * v) == (256 * p) * v
  {
  }

  lemma {:induction false} BytesUintHead(s: seq<byte>)
    requires s != []
    ensures BytesUint(s) == Pow256(|s| - 1) * s[0] + BytesUint(s[1..])
  {
    var n := |s| - 1;
    if n > 0 {
      var first: int, p := s[0], Pow256(n - 1);
      BytesUintHead(s[..n]);
      assert s[..n][1..] == s[1..][..n - 1] && s[1..][n - 1] == s[n] && s[..n][0] == s[0];
      assert BytesUint(s) == 256 * BytesUint(s[..n]) + s[n];
      assert BytesUint(s[1..]) == 256 * BytesUint(s[1..][..n - 1]) + s[n];
      Scaled(p, first);
    } else {
      assert s[..0] == [] && s[1..] == [];
    }
  }

  /** The number in the `size` bytes at `at`. */
  function NumberAt(data: seq<byte>, at: nat, size: nat): nat
    requires at + size <= |data|
  {
    BigEndian(data[at..at + size])
  }

  /** Bytes of stored hashes and depths that a first descriptor byte announces. */
  function StoredLenOf(d1: byte): nat {
    if d1 / 16 % 2 == 1 then 34 * (1 + d1 / 32 % 2 + d1 / 64 % 2 + d1 / 128) else 0
  }

  /** A byte string is one cell record: its descriptor announces its very length, and nothing in it is malformed. */
  predicate IsRecord(raw: seq<byte>, size: nat) {
    && |raw| >= 2
    && var d1, d2 := raw[0], raw[1];
       var dataEnd := 2 + StoredLenOf(d1) + d2 / 2 + d2 % 2;
       && d1 % 32 != 23 && d1 % 8 <= 4
       && !(d1 / 16 % 2 == 1 && d1 / 8 % 2 == 1 && d1 % 8 == 0 && d1 / 32 != 0)
       && |raw| == dataEnd + d1 % 8 * size
       && (d2 % 2 == 1 ==> raw[dataEnd - 1] != 0 && raw[dataEnd - 1] != 128)
  }

  lemma {:induction false} DescriptorIs(d1: byte, d2: byte)
    ensures var d := Descriptor(d1, d2);
      && d.HashesLen() == StoredLenOf(d1) && d.DataLen() == d2 / 2 + d2 % 2
      && (d.Mask().Level() > 0 <==> d1 / 32 != 0)
  {
    assert d1 / 32 / 2 == d1 / 64 && d1 / 32 / 4 == d1 / 128;
  }

  lemma {:induction false} RecordIs(raw: seq<byte>, size: nat)
    ensures RawCell(raw, size) <==> IsRecord(raw, size)
  {
    hide Descriptor.HashesLen, Descriptor.DataLen, Descriptor.Mask, StoredLenOf;
    if |raw| >= 2 { DescriptorIs(raw[0], raw[1]); }
  }

  /** A record ends where it ends, whatever follows it. */
  lemma {:induction false} RecordFirst(raw: seq<byte>, size: nat, rest: seq<byte>)
    requires RawCell(raw, size)
    ensures ReadRawCell(raw + rest, size) == Ok(|raw|)
  {
    hide Descriptor.HashesLen, Descriptor.DataLen, Descriptor.Mask;
    assert (raw + rest)[0] == raw[0] && (raw + rest)[1] == raw[1];
    var d := Descriptor(raw[0], raw[1]);
    DescriptorIs(raw[0], raw[1]);
    var dataEnd := 2 + d.HashesLen() + d.DataLen();
    if d.DataLen() > 0 { assert (raw + rest)[dataEnd - 1] == raw[dataEnd - 1]; }
  }

  // ---------------------------------------------------------------- the parts of a file

  function Concat(parts: seq<seq<byte>>): seq<byte> {
    if parts == [] then [] else parts[0] + Concat(parts[1..])
  }

  /** What a file says about itself in its first six bytes. */
  datatype Kind = Kind(generic: bool, indexed: bool, summed: bool, size: nat, wide: nat)

  function KindOf(data: seq<byte>): Kind
    requires |data| >= 6
  {
    var generic := data[..4] == [0xb5, 0xee, 0x9c, 0x72];
    Kind(generic,
         if generic then data[4] >= 128 else true,
         if generic then data[4] / 64 % 2 == 1 else data[..4] == [0xac, 0xc3, 0xa7, 0x28],
         if generic then data[4] % 8 else data[4],
         data[5])
  }

  predicate KindFormat(data: seq<byte>) {
    && |data| >= 6
    && var k := KindOf(data);
       && (k.generic || k.summed || data[..4] == [0x68, 0xff, 0x65, 0xf3])
       && (k.generic && data[4] / 32 % 2 == 1 ==> k.indexed)
       && 1 <= k.size <= 4 && 1 <= k.wide <= 8 && |data| >= 6 + 3 * k.size + k.wide
  }

  /** Cell count, root count, absent count and total size, each within its bounds. */
  predicate CountsFormat(data: seq<byte>, options: Options, k: Kind)
    requires |data| >= 6 + 3 * k.size + k.wide
  {
    var cells, roots := NumberAt(data, 6, k.size), NumberAt(data, 6 + k.size, k.size);
    var absent, total := NumberAt(data, 6 + 2 * k.size, k.size), NumberAt(data, 6 + 3 * k.size, k.wide);
    && 1 <= roots <= cells && absent == 0 && (!k.generic ==> roots == 1)
    && (options.minRoots.Some? ==> options.minRoots.value <= roots)
    && roots <= (if options.maxRoots.Some? then options.maxRoots.value else 32)
    && cells * (2 + k.size) <= total + roots * k.size && total <= cells * (266 + 4 * k.size)
  }

  predicate RootsFormat(data: seq<byte>, k: Kind, cells: nat, count: nat, roots: seq<nat>)
    requires |data| >= 6 + 3 * k.size + k.wide
  {
    var at := 6 + 3 * k.size + k.wide;
    && |data| >= at + count * k.size
    && if !k.generic then roots == [0] else
         |roots| == count && forall i :: 0 <= i < count ==> roots[i] == NumberNo(data, at, k.size, i) && roots[i] < cells
  }

  /** The `i`-th of the numbers that start at `at`. */
  function NumberNo(data: seq<byte>, at: nat, size: nat, i: nat): nat {
    if at + i * size + size <= |data| then NumberAt(data, at + i * size, size) else 0
  }

  /** Where the cell records start: behind the roots and the index, if there is one. */
  function CellsAt(k: Kind, cells: nat, roots: nat): nat {
    6 + 3 * k.size + k.wide + (if k.generic then roots * k.size else 0) + (if k.indexed then cells * k.wide else 0)
  }

  /** The records fill the announced size exactly, and the checksum of all that is before it follows, low byte first. */
  predicate CellsFormat(crc: Crc, data: seq<byte>, k: Kind, cells: nat, start: nat, total: nat, records: seq<seq<byte>>) {
    && |data| >= start + total + (if k.summed then 4 else 0)
    && |records| == cells && (forall i :: 0 <= i < |records| ==> IsRecord(records[i], k.size))
    && Concat(records) == data[start..start + total]
    && (k.summed ==>
          var end := start + total;
          data[end] as int + 256 * data[end + 1] as int + 65536 * data[end + 2] as int + 16777216 * data[end + 3] as int
            == crc(data[..end]))
  }

  predicate HasFormat(crc: Crc, data: seq<byte>, options: Options, h: Header) {
    && KindFormat(data)
    && var k := KindOf(data);
       && h.refSize == k.size && CountsFormat(data, options, k)
       && var cells, roots, total := NumberAt(data, 6, k.size), NumberAt(data, 6 + k.size, k.size), NumberAt(data, 6 + 3 * k.size, k.wide);
          && RootsFormat(data, k, cells, roots, h.roots)
          && CellsFormat(crc, data, k, cells, CellsAt(k, cells, roots), total, h.cells)
  }

  // ---------------------------------------------------------------- the decoder accepts exactly these files

  predicate SameKind(l: Layout, k: Kind) {
    l.hasIndex == k.indexed && l.hasCrc == k.summed && l.refSize == k.size && l.offsetSize == k.wide && l.multipleRoots == k.generic
  }

  lemma {:induction false} LayoutIff(data: seq<byte>)
    ensures ReadLayout(data).Ok? <==> KindFormat(data)
    ensures ReadLayout(data).Ok? ==> SameKind(ReadLayout(data).value, KindOf(data))
  {
  }

  lemma {:induction false} CountsIff(data: seq<byte>, options: Options, l: Layout, k: Kind)
    requires |data| >= 6 + 3 * k.size + k.wide && SameKind(l, k)
    ensures var c := CountsOf(data, l);
      && c.cells == NumberAt(data, 6, k.size) && c.roots == NumberAt(data, 6 + k.size, k.size)
      && c.totalSize == NumberAt(data, 6 + 3 * k.size, k.wide)
      && (CountsError(l, c, options).None? <==> CountsFormat(data, options, k))
      && (CountsError(l, c, options).None? ==> c.cells >= 1)
  {
    hide BytesUint, BigEndian;
    BigEndianIs(data[6..6 + k.size]);
    BigEndianIs(data[6 + k.size..6 + 2 * k.size]);
    BigEndianIs(data[6 + 2 * k.size..6 + 3 * k.size]);
    BigEndianIs(data[6 + 3 * k.size..6 + 3 * k.size + k.wide]);
  }

  /** What reading `n` more roots gives. */
  lemma {:induction false} RootsRead(data: seq<byte>, base: nat, n: nat, size: nat, cells: nat, done: seq<nat>)
    requires base + |done| * size + n * size <= |data| && forall i :: 0 <= i < |done| ==> done[i] < cells
    ensures var r := ReadRoots(data, base + |done| * size, n, size, cells, done);
      && (r.Ok? ==> done <= r.value && forall i :: |done| <= i < |done| + n ==> r.value[i] == NumberNo(data, base, size, i))
      && (r.Err? ==> r.error == RootOutOfBounds && exists i :: |done| <= i < |done| + n && NumberNo(data, base, size, i) >= cells)
    decreases n
  {
    hide BytesUint, BigEndian;
    if n != 0 {
      assert n * size == size + (n - 1) * size && (|done| + 1) * size == |done| * size + size;
      var at := base + |done| * size;
      BigEndianIs(data[at..at + size]);
      var root := BytesUint(data[at..at + size]);
      assert root == NumberNo(data, base, size, |done|);
      if root < cells { RootsRead(data, base, n - 1, size, cells, done + [root]); }
    }
  }

  lemma {:induction false} RootsIff(data: seq<byte>, at: nat, n: nat, size: nat, cells: nat, roots: seq<nat>)
    requires at + n * size <= |data|
    ensures ReadRoots(data, at, n, size, cells, []) == Ok(roots) <==>
      |roots| == n && forall i :: 0 <= i < n ==> roots[i] == NumberNo(data, at, size, i) && roots[i] < cells
  {
    hide ReadRoots, NumberNo;
    var done: seq<nat> := [];
    assert |done| * size == 0;
    RootsRead(data, at, n, size, cells, done);
    var r := ReadRoots(data, at, n, size, cells, done);
    if r.Ok? && |roots| == n && (forall i :: 0 <= i < n ==> roots[i] == NumberNo(data, at, size, i)) { assert r.value == roots; }
  }

  /** The records that follow each other from `at` on. */
  lemma {:induction false} RecordsRead(data: seq<byte>, at: nat, n: nat, size: nat, done: seq<seq<byte>>)
    requires at <= |data| && AllRaw(done, size)
    ensures var r := ReadCells(data, at, n, size, done);
      r.Ok? ==>
        && done <= r.value && |r.value| == |done| + n && AllRaw(r.value, size)
        && at + |Concat(r.value[|done|..])| <= |data|
        && data[at..at + |Concat(r.value[|done|..])|] == Concat(r.value[|done|..])
    decreases n
  {
    hide ReadRawCell, RawCell;
    if n == 0 {
      assert done[|done|..] == [];
    } else if ReadRawCell(data[at..], size).Ok? {
      var length := ReadRawCell(data[at..], size).value;
      var first := data[at..][..length];
      RawCellCut(data[at..], size, length);
      RecordsRead(data, at + length, n - 1, size, done + [first]);
      var r := ReadCells(data, at, n, size, done);
      if r.Ok? {
        var later := r.value[|done| + 1..];
        assert r.value[|done|..] == [first] + later;
        assert data[at..at + length + |Concat(later)|] == first + data[at + length..at + length + |Concat(later)|];
      }
    }
  }

  /** Records that are there are found. */
  lemma {:induction false} RecordsFound(data: seq<byte>, at: nat, size: nat, done: seq<seq<byte>>, records: seq<seq<byte>>)
    requires AllRaw(done, size) && AllRaw(records, size)
    requires at + |Concat(records)| <= |data| && data[at..at + |Concat(records)|] == Concat(records)
    ensures ReadCells(data, at, |records|, size, done) == Ok(done + records)
    decreases |records|
  {
    hide ReadRawCell;
    if records == [] {
      assert done + records == done;
    } else {
      var first, later := records[0], records[1..];
      var all := Concat(records);
      assert all == first + Concat(later);
      var rest := data[at + |first|..];
      assert data[at..] == first + rest by {
        assert data[at..at + |first|] == data[at..at + |all|][..|first|] == first;
      }
      RecordFirst(first, size, rest);
      assert data[at..][..|first|] == first;
      assert data[at + |first|..at + |first| + |Concat(later)|] == data[at..at + |all|][|first|..] == Concat(later);
      RecordsFound(data, at + |first|, size, done + [first], later);
      assert done + [first] + later == done + records;
    }
  }

  lemma {:induction false} ConcatLen(records: seq<seq<byte>>)
    ensures |Concat(records)| == TotalLen(records)
  {
    if records != [] {
      var n := |records| - 1;
      ConcatLen(records[..n]);
      ConcatLast(records);
    }
  }

  lemma {:induction false} ConcatLast(records: seq<seq<byte>>)
    requires records != []
    ensures Concat(records) == Concat(records[..|records| - 1]) + records[|records| - 1]
  {
    var n := |records| - 1;
    if n > 0 {
      ConcatLast(records[1..]);
      assert records[1..][..n - 1] == records[..n][1..] && records[..n][0] == records[0];
    } else {
      assert records[..0] == [] && records[1..] == [];
    }
  }

  predicate AllRecords(records: seq<seq<byte>>, size: nat) {
    forall i :: 0 <= i < |records| ==> IsRecord(records[i], size)
  }

  lemma {:induction false} RecordsAre(records: seq<seq<byte>>, size: nat)
    ensures AllRaw(records, size) <==> AllRecords(records, size)
  {
    hide RawCell, IsRecord;
    forall i | 0 <= i < |records|
      ensures RawCell(records[i], size) <==> IsRecord(records[i], size)
    {
      RecordIs(records[i], size);
    }
  }

  lemma {:induction false} LittleEndianIs(s: seq<byte>)
    requires |s| == 4
    ensures FromLittleEndian(s) == s[0] as int + 256 * s[1] as int + 65536 * s[2] as int + 16777216 * s[3] as int
  {
    var t := [s[3], s[2], s[1], s[0]];
    assert t[..3] == [s[3], s[2], s[1]] && t[..3][..2] == [s[3], s[2]] && t[..3][..2][..1] == [s[3]];
    assert BytesUint([s[3]]) == s[3];
    assert BytesUint([s[3], s[2]]) == 256 * s[3] as int + s[2];
    assert BytesUint([s[3], s[2], s[1]]) == 65536 * s[3] as int + 256 * s[2] as int + s[1];
  }

  /** Reading records succeeds with these records, of this total length, exactly when they fill that part of the file. */
  lemma {:induction false} RecordsIff(data: seq<byte>, start: nat, n: nat, size: nat, total: nat, records: seq<seq<byte>>)
    requires start + total <= |data|
    ensures (ReadCells(data, start, n, size, []) == Ok(records) && TotalLen(records) == total) <==>
      (|records| == n && AllRecords(records, size) && Concat(records) == data[start..start + total])
  {
    hide ReadCells, ReadRawCell, RawCell, IsRecord, Concat, TotalLen;
    RecordsRead(data, start, n, size, []);
    RecordsAre(records, size);
    ConcatLen(records);
    assert records[0..] == records;
    if |records| == n && AllRecords(records, size) && Concat(records) == data[start..start + total] {
      RecordsFound(data, start, size, [], records);
      assert [] + records == records;
    }
  }

  lemma {:induction false} CellsIff(crc: Crc, data: seq<byte>, l: Layout, k: Kind, c: Counts, roots: seq<nat>, at: nat, h: Header)
    requires SameKind(l, k) && at <= |data| && c.cells >= 1 && forall i :: 0 <= i < |roots| ==> roots[i] < c.cells
    ensures DecodeCells(crc, data, l, c, roots, at) == Ok(h) <==>
      h.refSize == k.size && h.roots == roots
      && CellsFormat(crc, data, k, c.cells, at + (if k.indexed then c.cells * k.wide else 0), c.totalSize, h.cells)
  {
    hide ReadCells, IsRecord, FromLittleEndian, Concat, TotalLen, RawCell, ReadRawCell;
    var start := at + if k.indexed then c.cells * k.wide else 0;
    var end := start + c.totalSize;
    if |data| >= end + (if k.summed then 4 else 0) {
      RecordsIff(data, start, c.cells, k.size, c.totalSize, h.cells);
      if k.summed { SumBytes(data, end); }
    }
  }

  lemma {:induction false} SumBytes(data: seq<byte>, end: nat)
    requires end + 4 <= |data|
    ensures FromLittleEndian(data[end..end + 4]) ==
      data[end] as int + 256 * data[end + 1] as int + 65536 * data[end + 2] as int + 16777216 * data[end + 3] as int
  {
    hide FromLittleEndian;
    LittleEndianIs(data[end..end + 4]);
  }

  /** The decoder accepts exactly the files that have the format, and returns what is in them. */
  lemma {:induction false} DecodeIff(crc: Crc, data: seq<byte>, options: Options, h: Header)
    ensures Decode(crc, data, options) == Ok(h) <==> HasFormat(crc, data, options, h)
  {
    hide ReadLayout, CountsOf, CountsError, ReadRoots, DecodeCells, CellsFormat, NumberAt, KindOf, CountsFormat, NumberNo, SameKind;
    LayoutIff(data);
    if ReadLayout(data).Ok? {
      var l, k := ReadLayout(data).value, KindOf(data);
      KindsAgree(l, k);
      CountsIff(data, options, l, k);
      var c := CountsOf(data, l);
      if CountsError(l, c, options).None? { BodyIff(crc, data, options, l, k, c, h); }
    }
  }

  lemma {:induction false} KindsAgree(l: Layout, k: Kind)
    requires SameKind(l, k)
    ensures l.hasIndex == k.indexed && l.hasCrc == k.summed && l.refSize == k.size && l.offsetSize == k.wide && l.multipleRoots == k.generic
  {
  }

  lemma {:induction false} BodyIff(crc: Crc, data: seq<byte>, options: Options, l: Layout, k: Kind, c: Counts, h: Header)
    requires |data| >= 6 + 3 * k.size + k.wide && SameKind(l, k) && c.cells >= 1
    ensures DecodeBody(crc, data, l, c, 6 + 3 * k.size + k.wide) == Ok(h) <==>
      && h.refSize == k.size && RootsFormat(data, k, c.cells, c.roots, h.roots)
      && CellsFormat(crc, data, k, c.cells, CellsAt(k, c.cells, c.roots), c.totalSize, h.cells)
  {
    hide ReadRoots, DecodeCells, CellsFormat, NumberNo;
    var at := 6 + 3 * k.size + k.wide;
    if |data| >= at + c.roots * k.size {
      if k.generic {
        RootsIff(data, at, c.roots, k.size, c.cells, h.roots);
        var r := ReadRoots(data, at, c.roots, k.size, c.cells, []);
        if r.Ok? {
          RootsIff(data, at, c.roots, k.size, c.cells, r.value);
          CellsIff(crc, data, l, k, c, r.value, at + c.roots * k.size, h);
        }
      } else {
        CellsIff(crc, data, l, k, c, [0], at, h);
      }
    }
  }

  // ---------------------------------------------------------------- the checksum

  /** Only the last comparison depends on the checksum function. */
  lemma {:induction false} OnlyChecksum(crc: Crc, other: Crc, data: seq<byte>, options: Options)
    requires Decode(other, data, options).Ok?
    ensures Decode(crc, data, options) == Decode(other, data, options) || Decode(crc, data, options) == Err(InvalidChecksum)
  {
    hide ReadLayout, CountsOf, CountsError, ReadRoots, ReadCells, FromLittleEndian, TotalLen;
  }

  // ---------------------------------------------------------------- the trees that the records describe

  /** The bits of a record's data: all of them, or those before the last one that is set. */
  predicate BitsFormat(data: seq<byte>, aligned: bool, bits: seq<bool>) {
    var all := BytesToBits(data);
    if aligned then bits == all
    else |bits| < |all| && bits == all[..|bits|] && all[|bits|] && forall j :: |bits| < j < |all| ==> !all[j]
  }

  /** Record `i` of the file describes tree `i`; children come later in the file. */
  predicate TreeFormat(records: seq<seq<byte>>, size: nat, trees: seq<Cell>, i: nat, t: Cell)
    requires i < |records| && IsRecord(records[i], size)
  {
    var raw, d1, d2 := records[i], records[i][0], records[i][1];
    var at := 2 + StoredLenOf(d1);
    var end := at + d2 / 2 + d2 % 2;
    && t.exotic == (d1 / 8 % 2 == 1) && t.storeHashes == (d1 / 16 % 2 == 1) && t.mask.ToByte() == d1 / 32
    && BitsFormat(raw[at..end], d2 % 2 == 0, t.bits)
    && |t.refs| == d1 % 8
    && forall k :: 0 <= k < |t.refs| ==> ChildFormat(raw, end, size, trees, i, t.refs, k)
  }

  predicate ChildFormat(raw: seq<byte>, end: nat, size: nat, trees: seq<Cell>, i: nat, refs: seq<Cell>, k: nat)
    requires k < |refs|
  {
    i < NumberNo(raw, end, size, k) < |trees| && refs[k] == trees[NumberNo(raw, end, size, k)]
  }

  lemma {:induction false} TagBit(b: nat, n: nat)
    requires 0 < b < Pow2(n) && b < 256
    ensures var t := TagOffset(b);
      && t < n && UintBits(b, n)[n - 1 - t] && forall j :: n - t <= j < n ==> !UintBits(b, n)[j]
    decreases n
  {
    if b % 2 == 0 {
      TagBit(b / 2, n - 1);
      assert forall j :: 0 <= j < n - 1 ==> UintBits(b, n)[j] == UintBits(b / 2, n - 1)[j];
    }
  }

  lemma {:induction false} LastByteBits(data: seq<byte>)
    requires data != []
    ensures BytesToBits(data)[8 * (|data| - 1)..] == ByteToBits(data[|data| - 1])
  {
    hide ByteToBits;
    var s := BytesToBits(data);
    if |data| > 1 {
      LastByteBits(data[1..]);
      assert s[8 * (|data| - 1)..] == BytesToBits(data[1..])[8 * (|data| - 2)..];
    } else {
      assert BytesToBits(data[1..]) == [];
    }
  }

  lemma {:induction false} BitsIff(data: seq<byte>, aligned: bool, bits: seq<bool>)
    requires !aligned ==> data != [] && data[|data| - 1] != 0
    ensures DataBits(data, aligned) == bits <==> BitsFormat(data, aligned, bits)
  {
    hide BytesToBits, UintBits, TagOffset;
    if !aligned {
      var all, n, b := BytesToBits(data), |data|, data[|data| - 1];
      var low := all[8 * (n - 1)..];
      Pow2Of8();
      TagBit(b, 8);
      LastByteBits(data);
      assert low == UintBits(b, 8);
      var last := 8 * n - 1 - TagOffset(b);
      assert all[last] == low[7 - TagOffset(b)];
      forall j | last < j < |all|
        ensures !all[j]
      {
        assert all[j] == low[j - 8 * (n - 1)];
      }
      assert DataBits(data, aligned) == all[..last];
    }
  }

  /** A child number that is too large, or that of a cell which is not finished yet. */
  predicate Dangling(raw: seq<byte>, base: nat, size: nat, k: nat, count: nat, finished: nat) {
    NumberNo(raw, base, size, k) >= count || count - NumberNo(raw, base, size, k) - 1 >= finished
  }

  /** Children by number, as the reader looks them up. */
  lemma {:induction false} RefsRead(raw: seq<byte>, base: nat, from: nat, n: nat, size: nat, cells: seq<Cell>, count: nat)
    requires base + from * size + n * size <= |raw|
    ensures var r := ReadRefs(raw, base + from * size, n, cells, count, size);
      && (r.Ok? ==> |r.value| == n && forall k :: from <= k < from + n ==>
            NumberNo(raw, base, size, k) < count && count - NumberNo(raw, base, size, k) - 1 < |cells|
            && r.value[k - from] == cells[count - NumberNo(raw, base, size, k) - 1])
      && (r.Err? ==> exists k :: from <= k < from + n && Dangling(raw, base, size, k, count, |cells|))
    decreases n
  {
    hide BytesUint, BigEndian;
    if n != 0 {
      assert n * size == size + (n - 1) * size && (from + 1) * size == from * size + size;
      var at := base + from * size;
      BigEndianIs(raw[at..at + size]);
      var index := BytesUint(raw[at..at + size]);
      assert index == NumberNo(raw, base, size, from);
      assert Dangling(raw, base, size, from, count, |cells|) <==> index >= count || count - index - 1 >= |cells|;
      if index < count && count - index - 1 < |cells| { RefsRead(raw, base, from + 1, n - 1, size, cells, count); }
    }
  }

  /** Trees by file position, from the list of finished cells, in which the last of the file is first. */
  predicate Mirrored(trees: seq<Cell>, i: nat, done: seq<Cell>) {
    |done| + i == |trees| && forall k :: i <= k < |trees| ==> trees[k] == done[|trees| - 1 - k]
  }

  lemma {:induction false} CellIff(records: seq<seq<byte>>, size: nat, trees: seq<Cell>, i: nat, done: seq<Cell>, t: Cell)
    requires i < |records| == |trees| && IsRecord(records[i], size) && RawCell(records[i], size) && Mirrored(trees, i + 1, done)
    ensures FromRawCell(records[i], done, |records|, size) == Ok(t) <==> TreeFormat(records, size, trees, i, t)
  {
    hide BytesToBits, ChildFormat, DataBits, ReadRefs, BitsFormat, Mirrored, Descriptor.DataLen, Descriptor.HashesLen, StoredLenOf, FromByte;
    hide ReadRawCell, LevelMask.ToByte;
    var raw, d1, d2 := records[i], records[i][0], records[i][1];
    var d := Descriptor(d1, d2);
    DescriptorIs(d1, d2);
    MaskIs(d1, t.mask);
    var at := 2 + d.HashesLen();
    var end := at + d.DataLen();
    assert d2 % 2 == 1 ==> raw[at..end][|raw[at..end]| - 1] == raw[end - 1];
    BitsIff(raw[at..end], d2 % 2 == 0, t.bits);
    ChildrenIff(raw, end, d.RefCount(), size, trees, i, done, t.refs);
  }

  lemma {:induction false} ChildrenIff(raw: seq<byte>, end: nat, n: nat, size: nat, trees: seq<Cell>, i: nat, done: seq<Cell>, refs: seq<Cell>)
    requires end + n * size <= |raw| && Mirrored(trees, i + 1, done)
    ensures ReadRefs(raw, end, n, done, |trees|, size) == Ok(refs) <==>
      |refs| == n && forall k :: 0 <= k < |refs| ==> ChildFormat(raw, end, size, trees, i, refs, k)
  {
    hide NumberNo, ReadRefs;
    RefsRead(raw, end, 0, n, size, done, |trees|);
    var r := ReadRefs(raw, end, n, done, |trees|, size);
    if r.Ok? {
      RefsAgree(raw, end, size, trees, i, done, r.value, refs);
    } else {
      var k :| 0 <= k < n && Dangling(raw, end, size, k, |trees|, |done|);
      assert |refs| == n ==> !ChildFormat(raw, end, size, trees, i, refs, k);
    }
  }

  lemma {:induction false} MaskIs(d1: byte, m: LevelMask)
    ensures FromByte(d1 / 32) == m <==> m.ToByte() == d1 / 32
  {
  }

  lemma {:induction false} RefsAgree(raw: seq<byte>, end: nat, size: nat, trees: seq<Cell>, i: nat, done: seq<Cell>, read: seq<Cell>, refs: seq<Cell>)
    requires Mirrored(trees, i + 1, done)
    requires forall k :: 0 <= k < |read| ==>
      NumberNo(raw, end, size, k) < |trees| && |trees| - NumberNo(raw, end, size, k) - 1 < |done|
      && read[k] == done[|trees| - NumberNo(raw, end, size, k) - 1]
    ensures read == refs <==>
      |refs| == |read| && forall k :: 0 <= k < |refs| ==> ChildFormat(raw, end, size, trees, i, refs, k)
  {
    hide NumberNo;
    forall k | 0 <= k < |read| && |refs| == |read|
      ensures ChildFormat(raw, end, size, trees, i, refs, k) <==> refs[k] == read[k]
    {
      assert read[k] == trees[NumberNo(raw, end, size, k)];
    }
  }

  /** Every record describes its tree, and the finalizer accepts all of them. */
  ghost predicate AllTrees(sha: Sha, records: seq<seq<byte>>, size: nat, trees: seq<Cell>, from: nat)
    requires AllRecords(records, size) && |trees| == |records|
  {
    forall i :: from <= i < |records| ==> TreeFormat(records, size, trees, i, trees[i]) && Finalizable(sha, trees[i])
  }

  /** The decoder builds exactly the trees that the records describe. */
  lemma {:induction false} FinalizeIff(sha: Sha, records: seq<seq<byte>>, size: nat, trees: seq<Cell>, from: nat, done: seq<Cell>)
    requires AllRecords(records, size) && AllRaw(records, size) && from <= |records| == |trees| && Mirrored(trees, from, done)
    ensures Finalize(sha, records[from..], |records|, size) == Ok(done) <==> AllTrees(sha, records, size, trees, from)
    decreases |records| - from
  {
    hide IsRecord, RawCell, TreeFormat, Finalizable, FromRawCell;
    if from < |records| {
      var rest, built := records[from + 1..], done[..|done| - 1];
      assert records[from..][0] == records[from] && records[from..][1..] == rest;
      assert done == built + [trees[from]];
      FinalizeIff(sha, records, size, trees, from + 1, built);
      CellIff(records, size, trees, from, built, trees[from]);
      if AllTrees(sha, records, size, trees, from) {
        assert AllTrees(sha, records, size, trees, from + 1);
        assert TreeFormat(records, size, trees, from, trees[from]);
      }
      FinalizeLast(sha, records, size, from, done);
    }
  }

  /** What was finished last is the cell of the first record. */
  lemma {:induction false} FinalizeLast(sha: Sha, records: seq<seq<byte>>, size: nat, from: nat, done: seq<Cell>)
    requires AllRaw(records, size) && from < |records| && done != []
    ensures var rest := Finalize(sha, records[from + 1..], |records|, size);
      Finalize(sha, records[from..], |records|, size) == Ok(done) <==>
        && rest == Ok(done[..|done| - 1]) && FromRawCell(records[from], done[..|done| - 1], |records|, size) == Ok(done[|done| - 1])
        && Finalizable(sha, done[|done| - 1])
  {
    hide RawCell, Finalizable, FromRawCell;
    assert records[from..][0] == records[from] && records[from..][1..] == records[from + 1..];
    var rest := Finalize(sha, records[from + 1..], |records|, size);
    if rest.Ok? {
      var c := FromRawCell(records[from], rest.value, |records|, size);
      if c.Ok? { assert (rest.value + [c.value])[..|rest.value|] == rest.value; }
    }
    assert done == done[..|done| - 1] + [done[|done| - 1]];
  }
}
