/** Bits, bytes, level masks and cells: the values every other module talks about. */
module Cells {

  const MAX_BIT_LEN: nat := 1023
  const U16_SIZE: nat := 0x1_0000
  const MAX_REF_COUNT: nat := 4
  const MAX_LEVEL: nat := 3
  const MAX_DEPTH: nat := 0xffff

  type byte = x: int | 0 <= x < 256

  datatype Result<+T, +E> = Ok(value: T) | Err(error: E)
  datatype Option<+T> = None | Some(value: T)

  // ---------------------------------------------------------------- bits and bytes

  function BitValue(b: bool): nat { if b then 1 else 0 }

  function Max(a: nat, b: nat): nat { if a > b then a else b }

  function Pow2(n: nat): (p: nat)
    ensures p >= 1
  {
    if n == 0 then 1 else 2 * Pow2(n - 1)
  }

  /** The low `n` bits of `v`, most significant first. */
  function UintBits(v: nat, n: nat): (s: seq<bool>)
    ensures |s| == n
  {
    if n == 0 then [] else UintBits(v / 2, n - 1) + [v % 2 == 1]
  }

  /** Big-endian value of a bit string. */
  function BitsUint(s: seq<bool>): nat {
    if s == [] then 0 else 2 * BitsUint(s[..|s| - 1]) + BitValue(s[|s| - 1])
  }

  lemma {:induction false} BitsUintBound(s: seq<bool>)
    ensures BitsUint(s) < Pow2(|s|)
  {
    if s != [] { BitsUintBound(s[..|s| - 1]); }
  }

  /** The value of a bit string by its first bit. */
  lemma {:induction false} BitsUintHead(s: seq<bool>)
    requires s != []
    ensures BitsUint(s) == BitValue(s[0]) * Pow2(|s| - 1) + BitsUint(s[1..])
  {
    var n := |s| - 1;
    if n > 0 {
      BitsUintHead(s[..n]);
      assert s[..n][1..] == s[1..][..n - 1];
    }
  }

  lemma {:induction false} UintBitsOfBits(s: seq<bool>)
    ensures UintBits(BitsUint(s), |s|) == s
  {
    if s != [] {
      UintBitsOfBits(s[..|s| - 1]);
    }
  }

  lemma {:induction false} BitsOfUintBits(v: nat, n: nat)
    requires v < Pow2(n)
    ensures BitsUint(UintBits(v, n)) == v
  {
    if n != 0 {
      BitsOfUintBits(v / 2, n - 1);
      assert UintBits(v, n)[..n - 1] == UintBits(v / 2, n - 1);
    }
  }

  lemma {:induction false} Pow2Monotone(a: nat, b: nat)
    requires a <= b
    ensures Pow2(a) <= Pow2(b)
  {
    if a < b { Pow2Monotone(a, b - 1); }
  }

  lemma {:induction false} Pow2Of8()
    ensures Pow2(8) == 256
  {
    assert Pow2(4) == 16;
    assert Pow2(6) == 4 * Pow2(4);
  }

  /** The eight bits of a byte, most significant first. */
  function ByteToBits(b: byte): (s: seq<bool>)
    ensures |s| == 8
  {
    UintBits(b, 8)
  }

  function BitsToByte(s: seq<bool>): byte
    requires |s| == 8
  {
    BitsUintBound(s);
    Pow2Of8();
    BitsUint(s)
  }

  lemma {:induction false} ByteOfBitsOfByte(b: byte)
    ensures BitsToByte(ByteToBits(b)) == b
  {
    Pow2Of8();
    BitsOfUintBits(b, 8);
  }

  function Repeat(b: bool, n: nat): (s: seq<bool>)
    ensures |s| == n
    ensures forall i :: 0 <= i < n ==> s[i] == b
  {
    seq(n, _ => b)
  }

  /** The bits of a byte string, in order. */
  function BytesToBits(data: seq<byte>): (s: seq<bool>)
    ensures |s| == 8 * |data|
  {
    if data == [] then [] else ByteToBits(data[0]) + BytesToBits(data[1..])
  }

  /** The tag bit and zero padding that complete `len` data bits to whole bytes. */
  function Completion(len: nat): (s: seq<bool>)
    ensures (len + |s|) % 8 == 0
  {
    if len % 8 == 0 then [] else [true] + Repeat(false, 7 - len % 8)
  }

  /** Byte image of a bit string: as many bytes as needed, completed by a tag bit. */
  function Pack(bits: seq<bool>): (data: seq<byte>)
    ensures |data| == (|bits| + 7) / 8
  {
    if |bits| == 0 then []
    else if |bits| < 8 then [BitsToByte(bits + Completion(|bits|))]
    else [BitsToByte(bits[..8])] + Pack(bits[8..])
  }

  lemma {:induction false} BitsOfFirstByte(chunk: seq<bool>, rest: seq<byte>)
    requires |chunk| == 8
    ensures BytesToBits([BitsToByte(chunk)] + rest) == chunk + BytesToBits(rest)
  {
    UintBitsOfBits(chunk);
    var d := [BitsToByte(chunk)] + rest;
    assert d[1..] == rest;
  }

  /** Packing loses nothing: the bytes spell the bits followed by the completion. */
  lemma {:induction false} BitsOfPack(bits: seq<bool>)
    ensures BytesToBits(Pack(bits)) == bits + Completion(|bits|)
  {
    hide BitsToByte, BytesToBits;
    if |bits| == 0 {
      NoBytes();
    } else if |bits| < 8 {
      var chunk := bits + Completion(|bits|);
      BitsOfFirstByte(chunk, []);
      NoBytes();
      assert [BitsToByte(chunk)] + [] == [BitsToByte(chunk)] && chunk + [] == chunk;
    } else {
      var rest := bits[8..];
      BitsOfFirstByte(bits[..8], Pack(rest));
      BitsOfPack(rest);
      assert Completion(|rest|) == Completion(|bits|) && bits == bits[..8] + rest;
      assert bits[..8] + (rest + Completion(|bits|)) == bits + Completion(|bits|);
    }
  }

  lemma {:induction false} NoBytes()
    ensures BytesToBits([]) == []
  {
  }

  lemma {:induction false} PackOfBits(data: seq<byte>)
    ensures Pack(BytesToBits(data)) == data
  {
    if data != [] {
      var s := BytesToBits(data);
      assert s[..8] == ByteToBits(data[0]) && s[8..] == BytesToBits(data[1..]);
      ByteOfBitsOfByte(data[0]);
      PackOfBits(data[1..]);
      assert [data[0]] + data[1..] == data;
    }
  }

  lemma {:induction false} BytesToBitsConcat(a: seq<byte>, b: seq<byte>)
    ensures BytesToBits(a + b) == BytesToBits(a) + BytesToBits(b)
  {
    hide ByteToBits;
    if a == [] {
      assert a + b == b;
    } else {
      BytesToBitsConcat(a[1..], b);
      assert (a + b)[1..] == a[1..] + b && (a + b)[0] == a[0];
      assert BytesToBits(a + b) == ByteToBits(a[0]) + (BytesToBits(a[1..]) + BytesToBits(b));
    }
  }

  // ---------------------------------------------------------------- level masks

  /** De Bruijn level presence: `l1` is bit 0 of the mask byte, `l2` bit 1, `l3` bit 2. */
  datatype LevelMask = LevelMask(l1: bool, l2: bool, l3: bool) {

    function ToByte(): (b: byte)
      ensures b < 8
    {
      BitValue(l1) + 2 * BitValue(l2) + 4 * BitValue(l3)
    }

    /** Number of levels present, level zero not counted. */
    function Level(): (n: nat)
      ensures n <= 3
    {
      BitValue(l1) + BitValue(l2) + BitValue(l3)
    }

    function IsEmpty(): bool { !l1 && !l2 && !l3 }

    /** Level zero is always present. */
    predicate Contains(level: nat) {
      level == 0 || (level == 1 && l1) || (level == 2 && l2) || (level == 3 && l3)
    }

    function And(that: LevelMask): LevelMask {
      LevelMask(l1 && that.l1, l2 && that.l2, l3 && that.l3)
    }

    function Or(that: LevelMask): LevelMask {
      LevelMask(l1 || that.l1, l2 || that.l2, l3 || that.l3)
    }

    /** The mask seen from outside one Merkle cell: every level drops by one. */
    function Virtualize(): LevelMask { LevelMask(l2, l3, false) }

    /** Index of the hash that answers for `level`. */
    function HashIndex(level: nat): (n: nat)
      ensures n <= 3 && n <= level
    {
      And(FromLevel(level)).Level()
    }

    /** Highest level present that is not above `level`. */
    function Significant(level: nat): (s: nat)
      ensures s <= level && s <= 3 && Contains(s)
      ensures forall k :: s < k <= level ==> !Contains(k)
    {
      if level >= 3 && l3 then 3
      else if level >= 2 && l2 then 2
      else if level >= 1 && l1 then 1
      else 0
    }
  }

  const NO_LEVELS := LevelMask(false, false, false)

  function FromByte(b: byte): LevelMask {
    LevelMask(b % 2 == 1, b / 2 % 2 == 1, b / 4 % 2 == 1)
  }

  /** All the levels up to and including `level`. */
  function FromLevel(level: nat): LevelMask {
    LevelMask(level >= 1, level >= 2, level >= 3)
  }

  lemma {:induction false} MaskByteRoundTrip(m: LevelMask)
    ensures FromByte(m.ToByte()) == m
  {
  }

  /** Levels are the bits of the mask byte, and looking through a Merkle cell shifts them down by one. */
  lemma {:induction false} MaskBits(m: LevelMask, o: LevelMask)
    ensures m.Contains(1) == (m.ToByte() % 2 == 1) && m.Contains(2) == (m.ToByte() / 2 % 2 == 1)
    ensures m.Contains(3) == (m.ToByte() / 4 == 1) && m.Contains(0) && forall level: nat :: level > 3 ==> !m.Contains(level)
    ensures m.Virtualize().ToByte() == m.ToByte() / 2
    ensures forall level: nat :: m.Or(o).Contains(level) <==> m.Contains(level) || o.Contains(level)
  {
  }

  /** The hash index of a level is the number of levels present from one up to it. */
  lemma {:induction false} HashIndexCounts(m: LevelMask, level: nat)
    ensures m.HashIndex(level) ==
      BitValue(level >= 1 && m.Contains(1)) + BitValue(level >= 2 && m.Contains(2)) + BitValue(level >= 3 && m.Contains(3))
    ensures m.Level() == m.HashIndex(3)
  {
  }

  /** Every level answers with the hash of its significant level. */
  lemma {:induction false} HashIndexOfSignificant(m: LevelMask, level: nat)
    ensures m.HashIndex(m.Significant(level)) == m.HashIndex(level)
  {
  }

  // ---------------------------------------------------------------- cells

  datatype CellType = Ordinary | PrunedBranch | LibraryReference | MerkleProof | MerkleUpdate {
    predicate IsMerkle() { MerkleProof? || MerkleUpdate? }
  }

  /** A cell of the tree. `bits` are the data bits without the completion tag. */
  datatype Cell = Cell(exotic: bool, storeHashes: bool, mask: LevelMask, bits: seq<bool>, refs: seq<Cell>) {

    /** First descriptor byte: mask, store-hashes flag, exotic flag, reference count. */
    function D1(): byte {
      32 * mask.ToByte() + 16 * BitValue(storeHashes) + 8 * BitValue(exotic) + |refs| % 8
    }

    /** Second descriptor byte: twice the whole bytes, plus one if a partial byte follows. */
    function D2(): byte {
      2 * (|bits| / 8) % 256 + (if |bits| % 8 != 0 then 1 else 0)
    }

    function Data(): (data: seq<byte>)
      ensures |data| == (|bits| + 7) / 8
    {
      Pack(bits)
    }

    /** Cell type as the descriptor alone tells it. */
    function Type(): CellType {
      if !exotic then Ordinary
      else if |refs| == 0 then (if mask.IsEmpty() then LibraryReference else PrunedBranch)
      else if |refs| == 1 then MerkleProof
      else MerkleUpdate
    }

    function ChildrenMask(): LevelMask { MaskUnion(refs) }

    predicate Fits() { |bits| <= MAX_BIT_LEN && |refs| <= MAX_REF_COUNT }
  }

  /** Union of the masks of a list of cells. */
  function MaskUnion(cells: seq<Cell>): LevelMask {
    if cells == [] then NO_LEVELS else MaskUnion(cells[..|cells| - 1]).Or(cells[|cells| - 1].mask)
  }

  /** A level is in the union exactly when some cell of the list has it. */
  lemma {:induction false} MaskUnionContains(cells: seq<Cell>, level: nat)
    ensures level != 0 ==> (MaskUnion(cells).Contains(level) <==> exists i :: 0 <= i < |cells| && cells[i].mask.Contains(level))
  {
    if cells != [] {
      var n := |cells| - 1;
      MaskUnionContains(cells[..n], level);
      if level != 0 && MaskUnion(cells).Contains(level) && !cells[n].mask.Contains(level) {
        var i :| 0 <= i < n && cells[..n][i].mask.Contains(level);
        assert cells[i].mask.Contains(level);
      }
      if i :| 0 <= i < n && cells[i].mask.Contains(level) {
        assert cells[..n][i].mask.Contains(level);
      }
    }
  }
}
