/** Bit strings in hexadecimal, with a tag when they do not end on a digit. */
module Bitstrings {
  import opened Cells
  import opened BitBytes
  import opened BitScan

  const MAX_HEX_LEN: nat := 256
  const CHUNK_LEN: nat := 16

  type Nibble = s: seq<bool> | |s| == 4 witness Repeat(false, 4)

  // ---------------------------------------------------------------- digits

  function HexChar(n: Nibble, upper: bool): char {
    BitsUintBound(n);
    assert Pow2(4) == 16;
    var v := BitsUint(n);
    if v < 10 then '0' + v as char else (if upper then 'A' else 'a') + (v - 10) as char
  }

  function HexValue(c: char): Option<Nibble> {
    if 'A' <= c <= 'F' then Some(UintBits(c as nat - 'A' as nat + 10, 4))
    else if 'a' <= c <= 'f' then Some(UintBits(c as nat - 'a' as nat + 10, 4))
    else if '0' <= c <= '9' then Some(UintBits(c as nat - '0' as nat, 4))
    else None
  }

  lemma {:induction false} HexCharBack(n: Nibble, upper: bool)
    ensures HexValue(HexChar(n, upper)) == Some(n) && HexChar(n, upper) < 128 as char && HexChar(n, upper) != '_'
  {
    BitsUintBound(n);
    assert Pow2(4) == 16;
    UintBitsOfBits(n);
  }

  // ---------------------------------------------------------------- printing

  function HexBytes(bytes: seq<Octet>, upper: bool): (s: string)
    ensures |s| == 2 * |bytes|
  {
    if bytes == [] then ""
    else
      var last := bytes[|bytes| - 1];
      HexBytes(bytes[..|bytes| - 1], upper) + [HexChar(last[..4], upper), HexChar(last[4..], upper)]
  }

  /** The first `rem` bits of a byte, then the tag, then zeros. */
  function Tagged(byte: Octet, rem: nat): (t: Octet)
    requires rem < 8
    ensures t == byte[..rem] + [true] + Repeat(false, 7 - rem)
  {
    var tag: Octet := Repeat(false, rem) + [true] + Repeat(false, 7 - rem);
    var t := Or(And(byte, HighMask(rem + 1)), tag);
    assert t == byte[..rem] + [true] + Repeat(false, 7 - rem);
    t
  }

  /** The digits for a last, incomplete byte. */
  function LastDigits(byte: Octet, rem: nat, upper: bool): string
    requires 0 < rem < 8
  {
    var t := Tagged(byte, rem);
    [HexChar(t[..4], upper)] + (if rem > 4 then [HexChar(t[4..], upper)] else []) + (if rem != 4 then "_" else "")
  }

  /** Number of bits that are printed: no more than the bytes hold. */
  function PrintedLen(bytes: seq<Octet>, bitLen: nat): nat { Min(bitLen, 8 * |bytes|) }

  function ShowHex(bytes: seq<Octet>, bitLen: nat, upper: bool): string {
    var n := PrintedLen(bytes, bitLen);
    HexBytes(bytes[..n / 8], upper) + if n % 8 == 0 then "" else LastDigits(bytes[n / 8], n % 8, upper)
  }

  /** Writes whole bytes in chunks, then the incomplete one. */
  method FmtHex(bytes: seq<Octet>, bitLen: nat, upper: bool) returns (out: string)
    ensures out == ShowHex(bytes, bitLen, upper)
  {
    hide HexChar, LastDigits;
    var n := PrintedLen(bytes, bitLen);
    var whole, rem := bytes[..n / 8], n % 8;
    out := "";
    var at := 0;
    while at < |whole|
      invariant 0 <= at <= |whole| && out == HexBytes(whole[..at], upper)
    {
      var end := Min(at + CHUNK_LEN, |whole|);
      var chunk := EncodeToHexSlice(whole[at..end], upper);
      HexConcat(whole[..at], whole[at..end], upper);
      assert whole[..at] + whole[at..end] == whole[..end];
      out := out + chunk;
      at := end;
    }
    assert whole[..|whole|] == whole;
    if rem != 0 { out := out + LastDigits(bytes[n / 8], rem, upper); }
  }

  method EncodeToHexSlice(data: seq<Octet>, upper: bool) returns (chunk: string)
    ensures chunk == HexBytes(data, upper)
  {
    hide HexChar;
    chunk := "";
    for i := 0 to |data|
      invariant chunk == HexBytes(data[..i], upper)
    {
      chunk := chunk + [HexChar(data[i][..4], upper), HexChar(data[i][4..], upper)];
      assert data[..i + 1][..i] == data[..i];
    }
    assert data[..|data|] == data;
  }

  lemma {:induction false} HexConcat(a: seq<Octet>, b: seq<Octet>, upper: bool)
    ensures HexBytes(a + b, upper) == HexBytes(a, upper) + HexBytes(b, upper)
  {
    hide HexChar;
    if b == [] {
      assert a + b == a;
    } else {
      HexConcat(a, b[..|b| - 1], upper);
      assert (a + b)[..|a + b| - 1] == a + b[..|b| - 1];
    }
  }

  // ---------------------------------------------------------------- parsing

  function JoinNibbles(high: seq<bool>, low: seq<bool>): Octet
    requires |high| == 4 && |low| == 4
  {
    high + low
  }

  function DecodePairs(s: string): Option<seq<Octet>>
    requires |s| % 2 == 0
  {
    if s == "" then Some([])
    else
      var high, low := HexValue(s[|s| - 2]), HexValue(s[|s| - 1]);
      match DecodePairs(s[..|s| - 2])
      case None => None
      case Some(front) => if high.None? || low.None? then None else Some(front + [JoinNibbles(high.value, low.value)])
  }

  /** Removes the tag: the last set bit and all that follows. */
  function Untag(data: seq<Octet>): (r: (seq<Octet>, nat))
    ensures r.1 <= 8 * |data| && |r.0| == CeilDiv8(r.1)
  {
    if data == [] then ([], 0)
    else
      var last, init := data[|data| - 1], data[..|data| - 1];
      if IsZero(last) then Untag(init)
      else
        var kept := 7 - TrailingZeros(last);
        if kept == 0 then (init, 8 * |init|)
        else (init + [And(last, HighMask(kept))], 8 * |init| + kept)
  }

  function StripTag(s: string): (string, bool) {
    if s != "" && s[|s| - 1] == '_' then (s[..|s| - 1], true) else (s, false)
  }

  predicate IsAscii(s: string) { forall i :: 0 <= i < |s| ==> s[i] < 128 as char }

  /** Bytes and bit length of a hexadecimal string. */
  function ParseHex(s: string): Option<(seq<Octet>, nat)> {
    if !IsAscii(s) || |s| > MAX_HEX_LEN then None
    else
      var (digits, withTag) := StripTag(s);
      var half := if |digits| % 2 != 0 then HexValue(digits[|digits| - 1]) else None;
      var pairs := if |digits| % 2 != 0 then digits[..|digits| - 1] else digits;
      if |digits| % 2 != 0 && half.None? then None
      else
        match DecodePairs(pairs)
        case None => None
        case Some(front) =>
          var data := if half.Some? then front + [half.value + Repeat(false, 4)] else front;
          if withTag then Some(Untag(data))
          else Some((data, 8 * |front| + if half.Some? then 4 else 0))
  }

  method FromHexStr(s: string) returns (r: Option<(seq<Octet>, nat)>)
    ensures r == ParseHex(s)
  {
    hide HexValue, DecodePairs;
    if !IsAscii(s) || |s| > MAX_HEX_LEN { return None; }
    var (digits, withTag) := StripTag(s);
    var half: Option<Nibble> := None;
    if |digits| % 2 != 0 {
      half := HexValue(digits[|digits| - 1]);
      if half.None? { return None; }
      digits := digits[..|digits| - 1];
    }
    var decoded := DecodeHex(digits);
    if decoded.None? { return None; }
    var data := decoded.value;
    var bitLen := 8 * |data|;
    if half.Some? {
      bitLen := bitLen + 4;
      data := data + [half.value + Repeat(false, 4)];
    }
    if withTag { data, bitLen := RemoveTag(data); }
    r := Some((data, bitLen));
  }

  method DecodeHex(s: string) returns (r: Option<seq<Octet>>)
    requires |s| % 2 == 0
    ensures r == DecodePairs(s)
  {
    hide HexValue;
    var data: seq<Octet> := [];
    for i := 0 to |s| / 2
      invariant DecodePairs(s[..2 * i]) == Some(data)
    {
      var high, low := HexValue(s[2 * i]), HexValue(s[2 * i + 1]);
      var front := s[..2 * (i + 1)];
      assert front[..|front| - 2] == s[..2 * i];
      if high.None? || low.None? {
        DecodeFails(s, i + 1);
        return None;
      }
      data := data + [JoinNibbles(high.value, low.value)];
    }
    assert s[..2 * (|s| / 2)] == s;
    r := Some(data);
  }

  lemma {:induction false} DecodeFails(s: string, i: nat)
    requires |s| % 2 == 0 && 2 * i <= |s| && DecodePairs(s[..2 * i]).None?
    ensures DecodePairs(s) == None
    decreases |s|
  {
    hide HexValue;
    if 2 * i == |s| {
      assert s[..2 * i] == s;
    } else {
      assert s[..|s| - 2][..2 * i] == s[..2 * i];
      DecodeFails(s[..|s| - 2], i);
    }
  }

  /** Walks back over zero bytes to the tag and clears it. */
  method RemoveTag(start: seq<Octet>) returns (data: seq<Octet>, bitLen: nat)
    ensures (data, bitLen) == Untag(start)
  {
    hide IsZero, And, HighMask;
    data := start;
    bitLen := 8 * |data|;
    assert data[..|data|] == data;
    var i := |data|;
    while i > 0 && IsZero(data[i - 1])
      invariant 0 <= i <= |data| && bitLen == 8 * i && Untag(start) == Untag(start[..i])
    {
      assert start[..i][..i - 1] == start[..i - 1] && start[..i][i - 1] == start[i - 1];
      bitLen := bitLen - 8;
      i := i - 1;
    }
    if i > 0 {
      UntagLast(start, i);
      var trailing := TrailingZeros(data[i - 1]);
      bitLen := bitLen - (1 + trailing);
      var cleared: Octet := And(data[i - 1], HighMask(7 - trailing));
      data := data[i - 1 := cleared];
      assert data[..i] == start[..i - 1] + [cleared] && data[..i - 1] == start[..i - 1];
    }
    data := data[..CeilDiv8(bitLen)];
  }

  lemma {:induction false} UntagLast(data: seq<Octet>, i: nat)
    requires 0 < i <= |data| && !IsZero(data[i - 1])
    ensures TrailingZeros(data[i - 1]) < 8
    ensures var kept := 7 - TrailingZeros(data[i - 1]);
      Untag(data[..i]) ==
        if kept == 0 then (data[..i - 1], 8 * (i - 1))
        else (data[..i - 1] + [And(data[i - 1], HighMask(kept))], 8 * (i - 1) + kept)
  {
    AllZeroBits(data[i - 1]);
    assert data[..i][..i - 1] == data[..i - 1];
  }

  lemma {:induction false} AllZeroBits(x: Octet)
    ensures IsZero(x) <==> TrailingZeros(x) == 8
  {
  }

  // ---------------------------------------------------------------- round trip

  lemma {:induction false} PairsBack(bytes: seq<Octet>, upper: bool)
    ensures DecodePairs(HexBytes(bytes, upper)) == Some(bytes)
  {
    hide HexChar, HexValue;
    if bytes != [] {
      var last := bytes[|bytes| - 1];
      var s := HexBytes(bytes, upper);
      PairsBack(bytes[..|bytes| - 1], upper);
      HexCharBack(last[..4], upper);
      HexCharBack(last[4..], upper);
      assert s[..|s| - 2] == HexBytes(bytes[..|bytes| - 1], upper);
      assert s[|s| - 2] == HexChar(last[..4], upper) && s[|s| - 1] == HexChar(last[4..], upper);
      assert last[..4] + last[4..] == last && bytes == bytes[..|bytes| - 1] + [last];
    }
  }

  lemma {:induction false} HexAscii(bytes: seq<Octet>, upper: bool)
    ensures IsAscii(HexBytes(bytes, upper)) && '_' !in HexBytes(bytes, upper)
  {
    hide HexChar, HexValue;
    if bytes != [] {
      var last := bytes[|bytes| - 1];
      HexAscii(bytes[..|bytes| - 1], upper);
      HexCharBack(last[..4], upper);
      HexCharBack(last[4..], upper);
    }
  }

  /** The first `n` bits of the bytes, with the rest of the last byte cleared. */
  function Cut(bytes: seq<Octet>, n: nat): (r: seq<Octet>)
    requires n <= 8 * |bytes|
    ensures |r| == CeilDiv8(n)
  {
    bytes[..n / 8] + if n % 8 == 0 then [] else [And(bytes[n / 8], HighMask(n % 8))]
  }

  lemma {:induction false} UntagBack(whole: seq<Octet>, byte: Octet, rem: nat)
    requires 0 < rem < 8
    ensures Untag(whole + [Tagged(byte, rem)]) == (whole + [And(byte, HighMask(rem))], 8 * |whole| + rem)
  {
    hide Tagged, And, HighMask;
    var t := Tagged(byte, rem);
    var data := whole + [t];
    assert data[..|data| - 1] == whole && t[rem];
    TagPlace(t, rem);
    SameMasked(t, byte, rem);
  }

  lemma {:induction false} SameMasked(x: Octet, y: Octet, n: nat)
    requires n <= 8 && x[..n] == y[..n]
    ensures And(x, HighMask(n)) == And(y, HighMask(n))
  {
    var a, b := And(x, HighMask(n)), And(y, HighMask(n));
    forall i | 0 <= i < 8
      ensures a[i] == b[i]
    {
      if i < n { assert x[i] == x[..n][i] && y[i] == y[..n][i]; }
    }
  }

  lemma {:induction false} TagPlace(t: Octet, rem: nat)
    requires rem < 8 && t[rem] && forall i :: rem < i < 8 ==> !t[i]
    ensures TrailingZeros(t) == 7 - rem
  {
    var k := TrailingZeros(t);
    assert k < 8 ==> t[7 - k];
  }

  lemma {:induction false} ShownLength(bytes: seq<Octet>, bitLen: nat, upper: bool)
    ensures |ShowHex(bytes, bitLen, upper)| <= MAX_HEX_LEN <==>
      PrintedLen(bytes, bitLen) <= 1020 || PrintedLen(bytes, bitLen) == 1024
  {
    hide HexChar;
  }

  /** A digit and no tag: four more bits. */
  lemma {:induction false} HalfBack(whole: seq<Octet>, n: Nibble, upper: bool)
    requires 2 * |whole| + 1 <= MAX_HEX_LEN
    ensures ParseHex(HexBytes(whole, upper) + [HexChar(n, upper)]) ==
      Some((whole + [n + Repeat(false, 4)], 8 * |whole| + 4))
  {
    hide HexChar, HexValue, DecodePairs, HexBytes;
    HexAscii(whole, upper);
    HexCharBack(n, upper);
    PairsBack(whole, upper);
    var s := HexBytes(whole, upper) + [HexChar(n, upper)];
    assert s[..|s| - 1] == HexBytes(whole, upper);
  }

  /** A digit and a tag: what is in front of the last set bit. */
  lemma {:induction false} HalfTagBack(whole: seq<Octet>, n: Nibble, upper: bool)
    requires 2 * |whole| + 2 <= MAX_HEX_LEN
    ensures ParseHex(HexBytes(whole, upper) + [HexChar(n, upper)] + "_") == Some(Untag(whole + [n + Repeat(false, 4)]))
  {
    hide HexChar, HexValue, DecodePairs, HexBytes, Untag;
    HexAscii(whole, upper);
    HexCharBack(n, upper);
    PairsBack(whole, upper);
    var digits := HexBytes(whole, upper) + [HexChar(n, upper)];
    var s := digits + "_";
    assert s[..|s| - 1] == digits && digits[..|digits| - 1] == HexBytes(whole, upper);
  }

  /** Whole bytes and a tag. */
  lemma {:induction false} WholeTagBack(whole: seq<Octet>, upper: bool)
    requires 2 * |whole| + 1 <= MAX_HEX_LEN
    ensures ParseHex(HexBytes(whole, upper) + "_") == Some(Untag(whole))
  {
    hide HexChar, HexValue, DecodePairs, HexBytes, Untag;
    HexAscii(whole, upper);
    PairsBack(whole, upper);
    var s := HexBytes(whole, upper) + "_";
    assert s[..|s| - 1] == HexBytes(whole, upper);
  }

  /** What is parsed from whole bytes followed by the digits of an incomplete one. */
  lemma {:induction false} LastBack(whole: seq<Octet>, byte: Octet, rem: nat, upper: bool)
    requires 0 < rem < 8 && |HexBytes(whole, upper) + LastDigits(byte, rem, upper)| <= MAX_HEX_LEN
    ensures ParseHex(HexBytes(whole, upper) + LastDigits(byte, rem, upper)) ==
      Some((whole + [And(byte, HighMask(rem))], 8 * |whole| + rem))
  {
    hide HexChar, ParseHex, Untag;
    var t, front := Tagged(byte, rem), HexBytes(whole, upper);
    UntagBack(whole, byte, rem);
    var s := front + LastDigits(byte, rem, upper);
    if rem == 4 {
      HalfBack(whole, t[..4], upper);
      assert s == front + [HexChar(t[..4], upper)];
      assert t[..4] + Repeat(false, 4) == And(byte, HighMask(4));
    } else if rem < 4 {
      HalfTagBack(whole, t[..4], upper);
      assert s == front + [HexChar(t[..4], upper)] + "_";
      assert t[..4] + Repeat(false, 4) == t;
    } else {
      WholeTagBack(whole + [t], upper);
      assert (whole + [t])[..|whole|] == whole;
      assert s == HexBytes(whole + [t], upper) + "_";
    }
  }

  lemma {:induction false} WholeBack(whole: seq<Octet>, upper: bool)
    requires 2 * |whole| <= MAX_HEX_LEN
    ensures ParseHex(HexBytes(whole, upper)) == Some((whole, 8 * |whole|))
  {
    hide HexChar, HexValue, DecodePairs;
    HexAscii(whole, upper);
    PairsBack(whole, upper);
    var s := HexBytes(whole, upper);
    if s != "" { assert s[|s| - 1] in s; }
  }

  /** Printed bits parse back, exactly when the text fits the parser's limit. */
  lemma {:induction false} HexRoundTrip(bytes: seq<Octet>, bitLen: nat, upper: bool)
    ensures var n := PrintedLen(bytes, bitLen);
      ParseHex(ShowHex(bytes, bitLen, upper)) == Some((Cut(bytes, n), n)) <==> n <= 1020 || n == 1024
  {
    hide HexChar, HexValue, DecodePairs, HexBytes, LastDigits;
    var n := PrintedLen(bytes, bitLen);
    ShownLength(bytes, bitLen, upper);
    var s := ShowHex(bytes, bitLen, upper);
    if |s| <= MAX_HEX_LEN {
      var whole := bytes[..n / 8];
      if n % 8 == 0 {
        assert s == HexBytes(whole, upper);
        WholeBack(whole, upper);
        assert Cut(bytes, n) == whole;
      } else {
        LastBack(whole, bytes[n / 8], n % 8, upper);
      }
    } else {
      TooLong(s);
    }
  }

  lemma {:induction false} TooLong(s: string)
    requires |s| > MAX_HEX_LEN
    ensures ParseHex(s) == None
  {
  }
}
