/** Edge labels of dictionary tries: the three encodings of a key part and the choice between them. */
module Labels {
  import opened Cells

  datatype DictError = CellUnderflow | CellOverflow | InvalidData | UnexpectedExoticCell | DepthTooLarge

  /** A run of bits and references: what is left of a cell after reading from it. */
  datatype Slice = Slice(bits: seq<bool>, refs: seq<Cell>)

  /** Number of binary digits: `16 - leading_zeros` of a 16-bit number. */
  function BitLength(n: nat): nat {
    if n == 0 then 0 else 1 + BitLength(n / 2)
  }

  lemma {:induction false} BitLengthBound(n: nat)
    ensures n < Pow2(BitLength(n))
  {
    if n != 0 { BitLengthBound(n / 2); }
  }

  lemma {:induction false} BitLengthMax(n: nat, k: nat)
    requires n < Pow2(k)
    ensures BitLength(n) <= k
  {
    if n != 0 { BitLengthMax(n / 2, k - 1); }
  }

  /** Lengths of keys take at most ten bits. */
  lemma {:induction false} KeyLengthBits(n: nat)
    requires n <= MAX_BIT_LEN
    ensures BitLength(n) <= 10
  {
    assert Pow2(5) == 32;
    assert Pow2(10) == 32 * Pow2(5);
    BitLengthMax(n, 10);
  }

  /** `Some(b)` when the bits are all `b` and there is at least one. */
  function Uniform(s: seq<bool>): (r: Option<bool>)
    ensures r.Some? ==> s != [] && r.value == s[0]
  {
    if s != [] && s == Repeat(s[0], |s|) then Some(s[0]) else None
  }

  /** Length of the longest common prefix. */
  function CommonPrefix(a: seq<bool>, b: seq<bool>): (l: nat)
    ensures l <= |a| && l <= |b| && a[..l] == b[..l]
    ensures l < |a| && l < |b| ==> a[l] != b[l]
  {
    if a == [] || b == [] || a[0] != b[0] then 0 else
      var l := CommonPrefix(a[1..], b[1..]);
      assert a[..l + 1] == [a[0]] + a[1..][..l] && b[..l + 1] == [b[0]] + b[1..][..l];
      l + 1
  }

  lemma {:induction false} CommonPrefixSymmetric(a: seq<bool>, b: seq<bool>)
    ensures CommonPrefix(a, b) == CommonPrefix(b, a)
  {
    if a != [] && b != [] && a[0] == b[0] { CommonPrefixSymmetric(a[1..], b[1..]); }
  }

  // ---------------------------------------------------------------- the three encodings

  function ShortCode(part: seq<bool>): seq<bool> {
    [false] + Repeat(true, |part|) + [false] + part
  }

  function LongCode(part: seq<bool>, n: nat): seq<bool> {
    [true, false] + UintBits(|part|, BitLength(n)) + part
  }

  function SameCode(bit: bool, length: nat, n: nat): seq<bool> {
    [true, true, bit] + UintBits(length, BitLength(n))
  }

  /** Whether the encoding of a repeated bit beats both others. */
  predicate SameIsShortest(length: nat, n: nat) {
    3 + BitLength(n) < 2 + BitLength(n) + length && 3 + BitLength(n) < 2 + 2 * length
  }

  predicate ShortIsChosen(length: nat, n: nat) {
    2 + 2 * length <= MAX_BIT_LEN && 2 + 2 * length <= 2 + BitLength(n) + length
  }

  /** The bits written for a label when at most `n` key bits remain. */
  function LabelCode(part: seq<bool>, n: nat): (r: Result<seq<bool>, DictError>)
    ensures r.Err? ==> r.error == InvalidData
  {
    if n == 0 || part == [] then Ok([false, false])
    else if SameIsShortest(|part|, n) && Uniform(part).Some? then Ok(SameCode(part[0], |part|, n))
    else if ShortIsChosen(|part|, n) then Ok(ShortCode(part))
    else if 2 + BitLength(n) + |part| <= MAX_BIT_LEN then Ok(LongCode(part, n))
    else Err(InvalidData)
  }

  // ---------------------------------------------------------------- reading

  function LeadingOnes(s: seq<bool>): (k: nat)
    ensures k <= |s|
  {
    if s == [] || !s[0] then 0 else 1 + LeadingOnes(s[1..])
  }

  /** Splits off the first `length` bits, if there are as many. */
  function TakeBits(s: seq<bool>, length: nat): Result<(seq<bool>, seq<bool>), DictError> {
    if length <= |s| then Ok((s[..length], s[length..])) else Err(CellUnderflow)
  }

  function ReadShort(s: seq<bool>): Result<(seq<bool>, seq<bool>), DictError> {
    var length := LeadingOnes(s);
    if length == |s| then Err(CellUnderflow) else TakeBits(s[length + 1..], length)
  }

  function ReadLong(s: seq<bool>, k: nat): Result<(seq<bool>, seq<bool>), DictError> {
    if |s| < k then Err(CellUnderflow) else TakeBits(s[k..], BitsUint(s[..k]))
  }

  /** A repeated bit comes from a constant cell, so no more than a full cell of it can be read. */
  function ReadSame(s: seq<bool>, k: nat): Result<(seq<bool>, seq<bool>), DictError> {
    if |s| < 1 + k then Err(CellUnderflow)
    else
      var length := BitsUint(s[1..1 + k]);
      Ok((Repeat(s[0], if length <= MAX_BIT_LEN then length else MAX_BIT_LEN), s[1 + k..]))
  }

  /** Label at the front of `s`, and what follows it, when at most `n` key bits remain. */
  function ParseLabel(s: seq<bool>, n: nat): Result<(seq<bool>, seq<bool>), DictError> {
    var k := BitLength(n);
    if k == 0 && s == [] then Ok(([], []))
    else if s == [] then Err(CellUnderflow)
    else if !s[0] then ReadShort(s[1..])
    else if |s| == 1 then Err(CellUnderflow)
    else if !s[1] then ReadLong(s[2..], k)
    else ReadSame(s[2..], k)
  }

  // ---------------------------------------------------------------- what a label means

  lemma {:induction false} LeadingOnesOf(k: nat, rest: seq<bool>)
    requires rest != [] && !rest[0]
    ensures LeadingOnes(Repeat(true, k) + rest) == k
  {
    var s := Repeat(true, k) + rest;
    if k == 0 {
      assert s == rest;
    } else {
      assert s[1..] == Repeat(true, k - 1) + rest;
      LeadingOnesOf(k - 1, rest);
    }
  }

  lemma {:induction false} ReadShortOf(part: seq<bool>, rest: seq<bool>)
    ensures ReadShort((ShortCode(part) + rest)[1..]) == Ok((part, rest))
  {
    var tail := [false] + (part + rest);
    var s := (ShortCode(part) + rest)[1..];
    assert s == Repeat(true, |part|) + tail;
    LeadingOnesOf(|part|, tail);
    assert s[|part| + 1..] == part + rest;
  }

  lemma {:induction false} LengthRoundTrip(length: nat, n: nat)
    requires length <= n
    ensures BitsUint(UintBits(length, BitLength(n))) == length
  {
    BitLengthBound(n);
    BitsOfUintBits(length, BitLength(n));
  }

  lemma {:induction false} ReadLongOf(part: seq<bool>, n: nat, rest: seq<bool>)
    requires |part| <= n
    ensures ReadLong((LongCode(part, n) + rest)[2..], BitLength(n)) == Ok((part, rest))
  {
    var k := BitLength(n);
    var s := (LongCode(part, n) + rest)[2..];
    LengthRoundTrip(|part|, n);
    assert s[..k] == UintBits(|part|, k);
    assert s[k..] == part + rest;
  }

  lemma {:induction false} ReadSameOf(bit: bool, length: nat, n: nat, rest: seq<bool>)
    requires length <= n && length <= MAX_BIT_LEN
    ensures ReadSame((SameCode(bit, length, n) + rest)[2..], BitLength(n)) == Ok((Repeat(bit, length), rest))
  {
    hide BitLength, BitsUint, UintBits;
    var k := BitLength(n);
    var s := (SameCode(bit, length, n) + rest)[2..];
    LengthRoundTrip(length, n);
    assert s == [bit] + UintBits(length, k) + rest;
    assert s[1..1 + k] == UintBits(length, k);
    assert s[1 + k..] == rest;
  }

  /** Reading gives back the label that was written and stops exactly behind it. */
  lemma {:induction false} LabelRoundTrip(part: seq<bool>, n: nat, rest: seq<bool>)
    requires |part| <= n && |part| <= MAX_BIT_LEN
    requires LabelCode(part, n).Ok?
    ensures ParseLabel(LabelCode(part, n).value + rest, n) == Ok((part, rest))
  {
    var code := LabelCode(part, n).value;
    if n == 0 || part == [] {
      assert code == ShortCode(part);
      ReadShortOf(part, rest);
    } else if SameIsShortest(|part|, n) && Uniform(part).Some? {
      ReadSameOf(part[0], |part|, n, rest);
    } else if ShortIsChosen(|part|, n) {
      ReadShortOf(part, rest);
    } else {
      ReadLongOf(part, n, rest);
    }
  }

  /** No bit string that reads as the label is shorter than what is written for it, but for the empty one when no key bits remain. */
  lemma {:induction false} LabelShortest(part: seq<bool>, n: nat, other: seq<bool>)
    requires |part| <= n && LabelCode(part, n).Ok?
    requires ParseLabel(other, n) == Ok((part, []))
    ensures |LabelCode(part, n).value| <= |other| <==> !(n == 0 && other == [])
  {
    if other != [] && other[0] && other[1] {
      assert part != [] ==> part == Repeat(part[0], |part|);
    }
  }

  /** A label can be written exactly when one of its encodings fits into a cell. */
  lemma {:induction false} LabelWritable(part: seq<bool>, n: nat)
    requires |part| <= n
    ensures LabelCode(part, n).Ok? <==>
      part == [] || 2 + 2 * |part| <= MAX_BIT_LEN || 2 + BitLength(n) + |part| <= MAX_BIT_LEN
      || (SameIsShortest(|part|, n) && Uniform(part).Some?)
    ensures LabelCode(part, n).Ok? && BitLength(n) <= 16 ==> |LabelCode(part, n).value| <= MAX_BIT_LEN
  {
  }
}
