/** What the checksum of a bag of cells protects. */
module BocChecksum {
  import opened Cells
  import opened CellHash
  import opened CellGraph
  import opened BocFill
  import opened BocNumbering
  import opened BocCells
  import opened BocEncode
  import opened BocDecode
  import opened BocRoundTrip
  import opened BocFormat

  /** The checksum that four bytes spell, lowest byte first. */
  function ChecksumOf(tail: seq<byte>): (v: word)
    requires |tail| == 4
    ensures LittleEndian(v) == tail
  {
    var v: int := tail[0] as int + 256 * tail[1] as int + 65536 * tail[2] as int + 16777216 * tail[3] as int;
    BytesOfSum(tail[0], tail[1], tail[2], tail[3]);
    v
  }

  lemma {:induction false} BytesOfSum(a: byte, b: byte, c: byte, d: byte)
    ensures var v: int := a as int + 256 * b as int + 65536 * c as int + 16777216 * d as int;
      0 <= v < U32_SIZE && v % 256 == a && v / 256 % 256 == b && v / 65536 % 256 == c && v / 16777216 == d
  {
    var x, y: int := c as int + 256 * d as int, b as int + 256 * (c as int + 256 * d as int);
    ByteAbove(c, d);
    ByteAbove(b, x);
    ByteAbove(a, y);
    assert (a as int + 256 * y) / 65536 == y / 256 && (a as int + 256 * y) / 16777216 == x / 256;
  }

  lemma {:induction false} ByteAbove(a: byte, y: nat)
    ensures (a as int + 256 * y) % 256 == a && (a as int + 256 * y) / 256 == y
  {
  }

  /** A checksum function that takes `tail` for the checksum of `body`, and nothing for what `crc` says of it otherwise. */
  function Forged(crc: Crc, body: seq<byte>, tail: seq<byte>): Crc
    requires |tail| == 4
  {
    (s: seq<byte>) => if s == body then ChecksumOf(tail) else (crc(s) + 1) % U32_SIZE
  }

  /** If both checksum functions accept, they agree on what they were applied to. */
  lemma {:induction false} BothAccept(crc: Crc, body: seq<byte>, tail: seq<byte>, data: seq<byte>, options: Options, h: Header)
    requires |tail| == 4 && |data| >= 6 && KindOf(data).summed
    requires HasFormat(crc, data, options, h) && HasFormat(Forged(crc, body, tail), data, options, h)
    ensures LittleEndian(crc(body)) == tail
  {
    hide NumberAt, CountsFormat, RootsFormat, LittleEndian, KindOf, IsRecord, Concat, CellsAt, CellsFormat, ChecksumOf;
    var k := KindOf(data);
    var cells, roots, total := NumberAt(data, 6, k.size), NumberAt(data, 6 + k.size, k.size), NumberAt(data, 6 + 3 * k.size, k.wide);
    var end := CellsAt(k, cells, roots) + total;
    SumIs(crc, data, k, cells, CellsAt(k, cells, roots), total, h.cells);
    SumIs(Forged(crc, body, tail), data, k, cells, CellsAt(k, cells, roots), total, h.cells);
    assert crc(data[..end]) == Forged(crc, body, tail)(data[..end]);
    assert data[..end] == body;
    assert LittleEndian(ChecksumOf(tail)) == tail;
  }

  function SumAt(data: seq<byte>, end: nat): int
    requires end + 4 <= |data|
  {
    data[end] as int + 256 * data[end + 1] as int + 65536 * data[end + 2] as int + 16777216 * data[end + 3] as int
  }

  lemma {:induction false} SumIs(crc: Crc, data: seq<byte>, k: Kind, cells: nat, start: nat, total: nat, records: seq<seq<byte>>)
    requires CellsFormat(crc, data, k, cells, start, total, records) && k.summed
    ensures start + total + 4 <= |data| && crc(data[..start + total]) == SumAt(data, start + total)
  {
    hide IsRecord, Concat;
  }

  /** An acceptable bag with any other four bytes in the place of its checksum is refused because of them. */
  lemma {:induction false} ChecksumGuards(sha: Sha, crc: Crc, roots: seq<Cell>, w: bool, options: Options, tail: seq<byte>, rest: seq<byte>)
    requires Distinguishable(sha, roots, w) && roots != []
    requires var st, numbers := Filled(sha, roots, w), RootNumbers(sha, roots, w);
      && Bounded(st) && Writable(st) && AllBelow(numbers, |st.cells|) && Acceptable(st, |roots|, w, options)
      && |tail| == 4 && tail != LittleEndian(crc(BodyBytes(sha, st, numbers, w, true)))
    ensures var st, numbers := Filled(sha, roots, w), RootNumbers(sha, roots, w);
      Decode(crc, BodyBytes(sha, st, numbers, w, true) + tail + rest, options) == Err(InvalidChecksum)
  {
    hide Filled, RootNumbers, ReachAll, Valid, CollisionFree, LittleEndian, HasFormat, Forged, HeaderBytes, CellsBytes;
    hide Decode, Healthy, NoneRefused, RefSize, OffsetSize, Bounded, KindOf;
    var st, numbers := Filled(sha, roots, w), RootNumbers(sha, roots, w);
    var body := BodyBytes(sha, st, numbers, w, true);
    var data := body + tail + rest;
    var other := Forged(crc, body, tail);
    ForgedTail(crc, body, tail);
    FilledHealthy(sha, roots, w);
    assert Encoded(sha, other, st, numbers, w, true) + rest == data;
    DecodeBack(sha, other, ReachAll(roots), st, numbers, w, true, options, rest);
    OnlyChecksum(crc, other, data, options);
    SummedStart(sha, st, numbers, w, tail + rest);
    assert body + (tail + rest) == data;
    if Decode(crc, data, options).Ok? {
      var h := Decode(crc, data, options).value;
      DecodeIff(crc, data, options, h);
      DecodeIff(other, data, options, h);
      BothAccept(crc, body, tail, data, options, h);
    }
  }

  lemma {:induction false} ForgedTail(crc: Crc, body: seq<byte>, tail: seq<byte>)
    requires |tail| == 4
    ensures LittleEndian(Forged(crc, body, tail)(body)) == tail
  {
    hide LittleEndian;
    var v := ChecksumOf(tail);
    assert Forged(crc, body, tail)(body) == v && LittleEndian(v) == tail;
  }

  lemma {:induction false} SummedStart(sha: Sha, st: Numbering, numbers: seq<nat>, w: bool, rest: seq<byte>)
    requires Bounded(st) && Writable(st) && AllBelow(numbers, |st.cells|)
    ensures var data := BodyBytes(sha, st, numbers, w, true) + rest; |data| >= 6 && KindOf(data).summed
  {
    hide HeaderBytes, CellsBytes, RootBytes, UintBytes, TotalCellsSize;
    var cells := CellsBytes(sha, st, st.cells, RefSize(st), w);
    var data := BodyBytes(sha, st, numbers, w, true) + rest;
    assert data == HeaderBytes(st, numbers, true) + (cells + rest);
    HeaderStarts(st, numbers, true, cells + rest);
  }

  /** The announced size of the whole bag is the number of bytes that are written. */
  lemma {:induction false} EncodedLength(sha: Sha, crc: Crc, roots: seq<Cell>, w: bool, includeCrc: bool)
    requires Distinguishable(sha, roots, w) && roots != []
    ensures var st, numbers := Filled(sha, roots, w), RootNumbers(sha, roots, w);
      && Bounded(st) && Writable(st) && AllBelow(numbers, |st.cells|)
      && |Encoded(sha, crc, st, numbers, w, includeCrc)| ==
           6 + RefSize(st) * (3 + |roots|) + OffsetSize(st) + TotalCellsSize(st) + 4 * BitValue(includeCrc)
  {
    hide Filled, RootNumbers, ReachAll, Valid, CollisionFree, LittleEndian, HeaderBytes, CellsBytes, RefSize, OffsetSize;
    hide TotalCellsSize, Numbered, Tallied;
    var u, st, numbers := ReachAll(roots), Filled(sha, roots, w), RootNumbers(sha, roots, w);
    FilledHealthy(sha, roots, w);
    HealthyFits(sha, u, st, numbers, w);
    FittingIs(st);
    CellsTotal(sha, st, w);
    HeaderLength(st, numbers, includeCrc);
  }

  lemma {:induction false} HeaderLength(st: Numbering, numbers: seq<nat>, includeCrc: bool)
    requires Writable(st) && AllBelow(numbers, |st.cells|)
    ensures |HeaderBytes(st, numbers, includeCrc)| == 6 + RefSize(st) * (3 + |numbers|) + OffsetSize(st)
  {
    hide RefSize, OffsetSize, TotalCellsSize, UintBytes, RootBytes;
    RootBytesLength(st, numbers, RefSize(st));
    assert RefSize(st) * (3 + |numbers|) == 3 * RefSize(st) + |numbers| * RefSize(st);
  }
}
