/** Which of several equally short encodings of a label is written. */
module LabelChoice {
  import opened Cells
  import opened Labels
  import opened BitOrder

  lemma {:induction false} ShortOnly(part: seq<bool>, s: seq<bool>)
    requires ReadShort(s) == Ok((part, []))
    ensures [false] + s == ShortCode(part)
  {
    var l := LeadingOnes(s);
    LeadingAreOnes(s);
    var tail := s[l + 1..];
    assert tail == tail[..l] + tail[l..] && part == tail[..l] && tail[l..] == [];
    assert s == s[..l] + [s[l]] + tail;
  }

  lemma {:induction false} LongOnly(part: seq<bool>, n: nat, s: seq<bool>)
    requires ReadLong(s, BitLength(n)) == Ok((part, []))
    ensures [true, false] + s == LongCode(part, n)
  {
    hide BitLength;
    var k := BitLength(n);
    var length, tail := BitsUint(s[..k]), s[k..];
    UintBitsOfBits(s[..k]);
    assert tail == tail[..length] + tail[length..] && part == tail[..length] && tail[length..] == [];
    assert s == s[..k] + tail;
  }

  lemma {:induction false} Pow2Of10()
    ensures Pow2(10) == 1024
  {
    assert Pow2(5) == 32 && Pow2(10) == 32 * Pow2(5);
  }

  lemma {:induction false} SameOnly(part: seq<bool>, n: nat, s: seq<bool>)
    requires n <= MAX_BIT_LEN && ReadSame(s, BitLength(n)) == Ok((part, []))
    ensures |s| == 1 + BitLength(n) && (part != [] ==> [true, true] + s == SameCode(part[0], |part|, n) && Uniform(part).Some?)
  {
    hide BitLength, BitsUint, UintBits, Pow2;
    var k := BitLength(n);
    var digits := s[1..1 + k];
    KeyLengthBits(n);
    BitsUintBound(digits);
    Pow2Monotone(k, 10);
    Pow2Of10();
    UintBitsOfBits(digits);
    assert s[1 + k..] == [];
    assert s == [s[0]] + digits;
    assert part == Repeat(s[0], BitsUint(digits));
  }

  lemma {:induction false} LeadingAreOnes(s: seq<bool>)
    ensures var l := LeadingOnes(s); s[..l] == Repeat(true, l) && (l < |s| ==> !s[l])
  {
    if s != [] && s[0] {
      LeadingAreOnes(s[1..]);
      var l := LeadingOnes(s[1..]);
      assert s[..l + 1] == [true] + s[1..][..l];
    }
  }

  /** What is written is the least, in lexicographic order, of the shortest bit strings that read as the label. */
  lemma {:induction false} LabelLeast(part: seq<bool>, n: nat, other: seq<bool>)
    requires |part| <= n <= MAX_BIT_LEN && LabelCode(part, n).Ok?
    requires ParseLabel(other, n) == Ok((part, [])) && |other| == |LabelCode(part, n).value|
    ensures LexCmp(LabelCode(part, n).value, other) != Greater
  {
    hide LexCmp, BitLength, ReadShort, ReadLong, ReadSame, UintBits;
    var code := LabelCode(part, n).value;
    if other != [] {
      if !other[0] {
        ShortOnly(part, other[1..]);
        assert other == [false] + other[1..];
      } else if !other[1] {
        LongOnly(part, n, other[2..]);
        assert other == [true, false] + other[2..];
      } else {
        SameOnly(part, n, other[2..]);
        assert other == [true, true] + other[2..];
      }
      LexIsNumeric(code, other);
      LexStep(code, other);
      if code[0] && other[0] { LexStep(code[1..], other[1..]); }
    }
  }

  // ---------------------------------------------------------------- the three forms

  /** As many bits as it takes to write `n`. */
  predicate Width(n: nat, k: nat) { n < Pow2(k) && (k > 0 ==> Pow2(k - 1) <= n) }

  /** `s` is one of the forms of a label, and `rest` follows it. */
  ghost predicate LabelForm(s: seq<bool>, n: nat, part: seq<bool>, rest: seq<bool>) {
    || (n == 0 && s == [] && part == [] && rest == [])
    || s == [false] + Repeat(true, |part|) + [false] + (part + rest)
    || LongForm(s, n, part, rest)
    || SameForm(s, n, part, rest)
  }

  /** Bits one and zero, a length as wide as the key length, then the label. */
  ghost predicate LongForm(s: seq<bool>, n: nat, part: seq<bool>, rest: seq<bool>) {
    exists k :: Width(n, k) && [true, false] <= s && LongTail(s[2..], k, part, rest)
  }

  predicate LongTail(t: seq<bool>, k: nat, part: seq<bool>, rest: seq<bool>) {
    |part| < Pow2(k) && t == UintBits(|part|, k) + (part + rest)
  }

  /** Two bits one, a bit and a length: the label repeats the bit, up to a full cell. */
  ghost predicate SameForm(s: seq<bool>, n: nat, part: seq<bool>, rest: seq<bool>) {
    exists k :: Width(n, k) && [true, true] <= s && SameTail(s[2..], k, part, rest)
  }

  ghost predicate SameTail(t: seq<bool>, k: nat, part: seq<bool>, rest: seq<bool>) {
    exists length: nat, bit: bool ::
      && length < Pow2(k) && t == [bit] + UintBits(length, k) + rest
      && part == Repeat(bit, if length <= 1023 then length else 1023)
  }

  lemma {:induction false} WidthIs(n: nat, k: nat)
    ensures Width(n, k) <==> k == BitLength(n)
  {
    hide BitLength, Pow2;
    BitLengthBound(n);
    if Width(n, k) {
      BitLengthMax(n, k);
      if BitLength(n) < k { Pow2Monotone(BitLength(n), k - 1); }
    }
    if n == 0 { NoWidth(); } else { LeastWidth(n); }
  }

  lemma {:induction false} NoWidth()
    ensures BitLength(0) == 0
  {
  }

  lemma {:induction false} LeastWidth(n: nat)
    requires n > 0
    ensures BitLength(n) >= 1 && Pow2(BitLength(n) - 1) <= n
  {
    if n > 1 { LeastWidth(n / 2); }
  }

  lemma {:induction false} ShortIff(s: seq<bool>, part: seq<bool>, rest: seq<bool>)
    ensures ReadShort(s) == Ok((part, rest)) <==> s == Repeat(true, |part|) + [false] + (part + rest)
  {
    hide LeadingOnes;
    var l := LeadingOnes(s);
    LeadingAreOnes(s);
    if ReadShort(s) == Ok((part, rest)) {
      assert s == s[..l] + [s[l]] + s[l + 1..];
      assert s[l + 1..] == s[l + 1..][..l] + s[l + 1..][l..];
    }
    if s == Repeat(true, |part|) + [false] + (part + rest) {
      assert s == Repeat(true, |part|) + ([false] + (part + rest));
      LeadingOnesOf(|part|, [false] + (part + rest));
      assert s[|part| + 1..] == part + rest;
    }
  }

  lemma {:induction false} LongIff(s: seq<bool>, k: nat, part: seq<bool>, rest: seq<bool>)
    ensures ReadLong(s, k) == Ok((part, rest)) <==> LongTail(s, k, part, rest)
  {
    if ReadLong(s, k) == Ok((part, rest)) {
      UintBitsOfBits(s[..k]);
      BitsUintBound(s[..k]);
      assert s == s[..k] + s[k..] && s[k..] == part + rest;
    }
    if |part| < Pow2(k) && s == UintBits(|part|, k) + (part + rest) {
      BitsOfUintBits(|part|, k);
      assert s[..k] == UintBits(|part|, k) && s[k..] == part + rest;
    }
  }

  lemma {:induction false} SameIff(s: seq<bool>, k: nat, part: seq<bool>, rest: seq<bool>)
    ensures ReadSame(s, k) == Ok((part, rest)) <==> SameTail(s, k, part, rest)
  {
    if ReadSame(s, k) == Ok((part, rest)) {
      var digits := s[1..1 + k];
      UintBitsOfBits(digits);
      BitsUintBound(digits);
      assert s == [s[0]] + digits + s[1 + k..];
      assert BitsUint(digits) < Pow2(k) && s == [s[0]] + UintBits(BitsUint(digits), k) + rest;
    }
    forall length: nat, bit: bool |
        && length < Pow2(k) && s == [bit] + UintBits(length, k) + rest
        && part == Repeat(bit, if length <= 1023 then length else 1023)
      ensures ReadSame(s, k) == Ok((part, rest))
    {
      BitsOfUintBits(length, k);
      assert s[1..1 + k] == UintBits(length, k) && s[1 + k..] == rest && s[0] == bit;
    }
  }

  /** The reader accepts exactly these forms. */
  lemma {:induction false} ParseLabelIff(s: seq<bool>, n: nat, part: seq<bool>, rest: seq<bool>)
    ensures ParseLabel(s, n) == Ok((part, rest)) <==> LabelForm(s, n, part, rest)
  {
    hide BitLength, ReadShort, ReadLong, ReadSame, Width, LongTail, SameTail;
    var k := BitLength(n);
    forall j: nat
      ensures Width(n, j) <==> j == k
    {
      WidthIs(n, j);
    }
    NoWidth();
    if n > 0 { LeastWidth(n); }
    if s != [] {
      assert s == [s[0]] + s[1..];
      ShortIff(s[1..], part, rest);
      ShortStart(s, part, rest);
      if |s| > 1 {
        LongIff(s[2..], k, part, rest);
        SameIff(s[2..], k, part, rest);
        assert [true, false] <= s <==> s[0] && !s[1];
        assert [true, true] <= s <==> s[0] && s[1];
      }
    }
  }

  lemma {:induction false} ShortStart(s: seq<bool>, part: seq<bool>, rest: seq<bool>)
    requires s != []
    ensures s == [false] + Repeat(true, |part|) + [false] + (part + rest) <==>
      !s[0] && s[1..] == Repeat(true, |part|) + [false] + (part + rest)
  {
    var t := Repeat(true, |part|) + [false] + (part + rest);
    assert [false] + Repeat(true, |part|) + [false] + (part + rest) == [false] + t;
    assert s == [s[0]] + s[1..] && ([false] + t)[1..] == t;
  }
}
