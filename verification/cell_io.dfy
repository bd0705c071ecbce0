/** Building ordinary cells and reading them: the mutable ends of the dictionary code. */
module CellIo {
  import opened Cells
  import opened Labels
  import CellHash

  /** The ordinary cell with these contents. */
  function OrdinaryCell(bits: seq<bool>, refs: seq<Cell>): Cell {
    Cell(false, false, MaskUnion(refs), bits, refs)
  }

  /** What finishing a builder with these contents gives. */
  function BuildOrdinary(bits: seq<bool>, refs: seq<Cell>): Result<Cell, DictError> {
    if |bits| > MAX_BIT_LEN || |refs| > MAX_REF_COUNT then Err(CellOverflow)
    else if !CellHash.Shallow(OrdinaryCell(bits, refs)) then Err(DepthTooLarge)
    else Ok(OrdinaryCell(bits, refs))
  }

  class CellBuilder {
    var bits: seq<bool>
    var refs: seq<Cell>

    constructor ()
      ensures bits == [] && refs == []
    {
      bits, refs := [], [];
    }

    method StoreBits(s: seq<bool>) returns (ok: bool)
      modifies this`bits
      ensures ok == (|old(bits)| + |s| <= MAX_BIT_LEN)
      ensures bits == if ok then old(bits) + s else old(bits)
    {
      ok := |bits| + |s| <= MAX_BIT_LEN;
      if ok { bits := bits + s; }
    }

    method StoreReference(cell: Cell) returns (ok: bool)
      modifies this`refs
      ensures ok == (|old(refs)| < MAX_REF_COUNT)
      ensures refs == if ok then old(refs) + [cell] else old(refs)
    {
      ok := |refs| < MAX_REF_COUNT;
      if ok { refs := refs + [cell]; }
    }

    /** Appends bits and references, or nothing at all when either does not fit. */
    method StoreSlice(s: Slice) returns (ok: bool)
      modifies this
      ensures ok == (|old(bits)| + |s.bits| <= MAX_BIT_LEN && |old(refs)| + |s.refs| <= MAX_REF_COUNT)
      ensures bits == if ok then old(bits) + s.bits else old(bits)
      ensures refs == if ok then old(refs) + s.refs else old(refs)
    {
      ok := |bits| + |s.bits| <= MAX_BIT_LEN && |refs| + |s.refs| <= MAX_REF_COUNT;
      if ok {
        bits := bits + s.bits;
        for i := 0 to |s.refs|
          invariant refs == old(refs) + s.refs[..i] && bits == old(bits) + s.bits
        {
          var stored := StoreReference(s.refs[i]);
          assert s.refs[..i + 1] == s.refs[..i] + [s.refs[i]];
        }
      }
    }

    /** Finishes an ordinary cell: joins the children's masks and runs the finalizer. */
    method Build(sha: CellHash.Sha) returns (r: Result<Cell, DictError>)
      requires |bits| <= MAX_BIT_LEN && |refs| <= MAX_REF_COUNT
      ensures r == BuildOrdinary(bits, refs)
    {
      var mask := NO_LEVELS;
      for i := 0 to |refs|
        invariant mask == MaskUnion(refs[..i])
      {
        mask := mask.Or(refs[i].mask);
        assert refs[..i + 1][..i] == refs[..i];
      }
      assert refs[..|refs|] == refs;
      var cell := Cell(false, false, mask, bits, refs);
      var hashes := CellHash.ComputeHashes(sha, cell);
      r := if hashes.Ok? then Ok(cell) else Err(DepthTooLarge);
    }
  }

  class CellSlice {
    var bits: seq<bool>
    var refs: seq<Cell>

    constructor (s: Slice)
      ensures bits == s.bits && refs == s.refs
    {
      bits, refs := s.bits, s.refs;
    }

    method LoadBit() returns (r: Result<bool, DictError>)
      modifies this`bits
      ensures r == if old(bits) == [] then Err(CellUnderflow) else Ok(old(bits)[0])
      ensures bits == if r.Ok? then old(bits)[1..] else old(bits)
    {
      if bits == [] { return Err(CellUnderflow); }
      r := Ok(bits[0]);
      bits := bits[1..];
    }

    method LoadUint(k: nat) returns (r: Result<nat, DictError>)
      modifies this`bits
      ensures r == if |old(bits)| < k then Err(CellUnderflow) else Ok(BitsUint(old(bits)[..k]))
      ensures bits == if r.Ok? then old(bits)[k..] else old(bits)
    {
      if |bits| < k { return Err(CellUnderflow); }
      r := Ok(BitsUint(bits[..k]));
      bits := bits[k..];
    }

    /** Splits off a prefix of the data. */
    method LoadPrefix(length: nat) returns (r: Result<seq<bool>, DictError>)
      modifies this`bits
      ensures r == if length <= |old(bits)| then Ok(old(bits)[..length]) else Err(CellUnderflow)
      ensures bits == if r.Ok? then old(bits)[length..] else old(bits)
    {
      if length > |bits| { return Err(CellUnderflow); }
      r := Ok(bits[..length]);
      bits := bits[length..];
    }
  }

  // ---------------------------------------------------------------- labels, written and read

  method WriteShortTag(length: nat, b: CellBuilder) returns (ok: bool)
    modifies b`bits
    ensures ok == (|old(b.bits)| + length + 2 <= MAX_BIT_LEN)
    ensures ok ==> b.bits == old(b.bits) + [false] + Repeat(true, length) + [false]
  {
    ok := b.StoreBits([false]);
    if !ok { return; }
    for i := 0 to length / 32
      invariant b.bits == old(b.bits) + [false] + Repeat(true, 32 * i)
      invariant |b.bits| <= MAX_BIT_LEN
    {
      ok := b.StoreBits(Repeat(true, 32));
      if !ok { return; }
      assert Repeat(true, 32 * i) + Repeat(true, 32) == Repeat(true, 32 * (i + 1));
    }
    if length % 32 != 0 {
      ok := b.StoreBits(Repeat(true, length % 32));
      if !ok { return; }
      assert Repeat(true, 32 * (length / 32)) + Repeat(true, length % 32) == Repeat(true, length);
    }
    ok := b.StoreBits([false]);
  }

  method WriteLongTag(length: nat, k: nat, b: CellBuilder) returns (ok: bool)
    modifies b`bits
    ensures ok == (|old(b.bits)| + 2 + k <= MAX_BIT_LEN)
    ensures ok ==> b.bits == old(b.bits) + [true, false] + UintBits(length, k)
  {
    ok := b.StoreBits([true]);
    if !ok { return; }
    ok := b.StoreBits([false]);
    if !ok { return; }
    ok := b.StoreBits(UintBits(length, k));
  }

  method WriteSame(bit: bool, length: nat, k: nat, b: CellBuilder) returns (ok: bool)
    modifies b`bits
    ensures ok == (|old(b.bits)| + 3 + k <= MAX_BIT_LEN)
    ensures ok ==> b.bits == old(b.bits) + [true, true, bit] + UintBits(length, k)
  {
    ok := b.StoreBits([true, true, bit]);
    if !ok { return; }
    ok := b.StoreBits(UintBits(length, k));
  }

  /** Writes a label into an empty builder in its shortest form. */
  method WriteLabel(key: seq<bool>, n: nat, b: CellBuilder) returns (r: Result<(), DictError>)
    requires b.bits == [] && BitLength(n) <= 16
    modifies b`bits
    ensures r.Ok? <==> LabelCode(key, n).Ok?
    ensures r.Ok? ==> b.bits == LabelCode(key, n).value && |b.bits| <= MAX_BIT_LEN
    ensures r.Err? ==> r.error == InvalidData
  {
    hide BitLength, UintBits, Uniform;
    var ok;
    if n == 0 || key == [] {
      ok := b.StoreBits([false, false]);
      return Ok(());
    }
    var k := BitLength(n);
    var shortLength, longLength, sameLength := 2 + 2 * |key|, 2 + k + |key|, 3 + k;
    if sameLength < longLength && sameLength < shortLength && Uniform(key).Some? {
      ok := WriteSame(Uniform(key).value, |key|, k, b);
      return Ok(());
    }
    if shortLength <= MAX_BIT_LEN && shortLength <= longLength {
      ok := WriteShortTag(|key|, b);
    } else if longLength <= MAX_BIT_LEN {
      ok := WriteLongTag(|key|, k, b);
    } else {
      return Err(InvalidData);
    }
    ok := b.StoreBits(key);
    r := Ok(());
  }

  method StoreParts(prefix: seq<bool>, bit: bool, rest: seq<bool>, b: CellBuilder)
    requires |b.bits| + |prefix| + 1 + |rest| <= MAX_BIT_LEN
    modifies b`bits
    ensures b.bits == old(b.bits) + (prefix + [bit] + rest)
  {
    var ok := b.StoreBits(prefix);
    ok := b.StoreBits([bit]);
    ok := b.StoreBits(rest);
  }

  /** Writes the label `prefix ++ [bit] ++ rest` without joining it first. */
  method WriteLabelParts(prefix: seq<bool>, bit: bool, rest: seq<bool>, n: nat, b: CellBuilder)
    returns (r: Result<(), DictError>)
    requires b.bits == [] && BitLength(n) <= 16
    modifies b`bits
    ensures r.Ok? <==> LabelCode(prefix + [bit] + rest, n).Ok?
    ensures r.Ok? ==> b.bits == LabelCode(prefix + [bit] + rest, n).value && |b.bits| <= MAX_BIT_LEN
    ensures r.Err? ==> r.error == InvalidData
  {
    hide BitLength, UintBits, Uniform;
    var ok;
    if n == 0 {
      ok := b.StoreBits([false, false]);
      return Ok(());
    }
    var k := BitLength(n);
    var length := |prefix| + 1 + |rest|;
    ghost var key := prefix + [bit] + rest;
    assert |key| == length;
    var shortLength, longLength, sameLength := 2 + 2 * length, 2 + k + length, 3 + k;
    UniformParts(prefix, bit, rest);
    if sameLength < longLength && sameLength < shortLength
      && (prefix == [] || Uniform(prefix) == Some(bit))
      && (rest == [] || Uniform(rest) == Some(bit))
    {
      ok := WriteSame(bit, length, k, b);
      return Ok(());
    }
    if shortLength <= MAX_BIT_LEN && shortLength <= longLength {
      ok := WriteShortTag(length, b);
    } else if longLength <= MAX_BIT_LEN {
      ok := WriteLongTag(length, k, b);
    } else {
      return Err(InvalidData);
    }
    StoreParts(prefix, bit, rest, b);
    r := Ok(());
  }

  lemma {:induction false} UniformParts(prefix: seq<bool>, bit: bool, rest: seq<bool>)
    ensures Uniform(prefix + [bit] + rest).Some? <==>
      (prefix == [] || Uniform(prefix) == Some(bit)) && (rest == [] || Uniform(rest) == Some(bit))
    ensures Uniform(prefix + [bit] + rest).Some? ==> (prefix + [bit] + rest)[0] == bit
  {
    var s := prefix + [bit] + rest;
    if s == Repeat(s[0], |s|) {
      assert s[|prefix|] == bit;
      assert prefix == s[..|prefix|] && rest == s[|prefix| + 1..];
      assert prefix == Repeat(bit, |prefix|) && rest == Repeat(bit, |rest|);
    }
    if (prefix == [] || Uniform(prefix) == Some(bit)) && (rest == [] || Uniform(rest) == Some(bit)) {
      assert prefix == Repeat(bit, |prefix|) && rest == Repeat(bit, |rest|);
      assert s == Repeat(bit, |s|);
    }
  }

  method ReadHmlShort(s: CellSlice) returns (r: Result<seq<bool>, DictError>)
    modifies s`bits
    ensures var parsed := ReadShort(old(s.bits));
      && (r.Ok? ==> parsed == Ok((r.value, s.bits)))
      && (r.Err? ==> parsed == Err(r.error))
  {
    var length := 0;
    while true
      invariant length <= |old(s.bits)| && s.bits == old(s.bits)[length..]
      invariant LeadingOnes(old(s.bits)) == length + LeadingOnes(s.bits)
      decreases |s.bits|
    {
      var bit := s.LoadBit();
      if bit.Err? { return Err(bit.error); }
      if !bit.value { break; }
      length := length + 1;
    }
    assert LeadingOnes(old(s.bits)) == length < |old(s.bits)|;
    ghost var tail := old(s.bits)[length + 1..];
    assert s.bits == tail;
    r := s.LoadPrefix(length);
    assert r.Ok? ==> TakeBits(tail, length) == Ok((r.value, s.bits));
  }

  /** Reads the next label, leaving the slice right behind it. */
  method ReadLabel(s: CellSlice, n: nat) returns (r: Result<seq<bool>, DictError>)
    modifies s`bits
    ensures var parsed := ParseLabel(old(s.bits), n);
      && (r.Ok? ==> parsed == Ok((r.value, s.bits)))
      && (r.Err? ==> parsed == Err(r.error))
  {
    var k := BitLength(n);
    if k == 0 && s.bits == [] { return Ok([]); }
    var first := s.LoadBit();
    if first.Err? { return Err(first.error); }
    if !first.value {
      r := ReadHmlShort(s);
      return;
    }
    var second := s.LoadBit();
    if second.Err? { return Err(second.error); }
    ghost var body := old(s.bits)[2..];
    assert s.bits == body;
    if !second.value {
      var length := s.LoadUint(k);
      if length.Err? { return Err(length.error); }
      r := s.LoadPrefix(length.value);
    } else {
      var bit := s.LoadBit();
      if bit.Err? { return Err(bit.error); }
      var length := s.LoadUint(k);
      if length.Err? { return Err(length.error); }
      assert body[1..][..k] == body[1..1 + k] && body[1..][k..] == body[1 + k..];
      r := Ok(Repeat(bit.value, if length.value <= MAX_BIT_LEN then length.value else MAX_BIT_LEN));
    }
  }
}
