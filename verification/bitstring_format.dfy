/** What hexadecimal strings spell, digit by digit; the printer and the parser agree with it on all inputs. */
module HexFormat {
  import opened Cells
  import opened BitBytes
  import opened BitScan
  import opened Bitstrings

  /** Character `c` is the digit for a number below sixteen. */
  predicate DigitFor(c: char, v: nat, upper: bool) {
    v < 16 && c as int == if v < 10 then 48 + v else (if upper then 55 + v else 87 + v)
  }

  predicate AnyDigitFor(c: char, v: nat) { DigitFor(c, v, true) || DigitFor(c, v, false) }

  /** The four bits of half a byte. */
  function HalfByte(data: seq<Octet>, k: nat): Nibble
    requires k < 2 * |data|
  {
    if k % 2 == 0 then data[k / 2][..4] else data[k / 2][4..]
  }

  lemma {:induction false} HalfWindow(data: seq<Octet>, k: nat)
    requires k < 2 * |data|
    ensures Window(data, 4 * k, 4) == HalfByte(data, k)
  {
    forall j | 0 <= j < 4
      ensures Window(data, 4 * k, 4)[j] == HalfByte(data, k)[j]
    {
      assert (4 * k + j) / 8 == k / 2 && (4 * k + j) % 8 == 4 * (k % 2) + j;
    }
  }

  lemma {:induction false} CharIs(n: Nibble, upper: bool)
    ensures DigitFor(HexChar(n, upper), BitsUint(n), upper)
  {
    BitsUintBound(n);
    assert Pow2(4) == 16;
  }

  lemma {:induction false} HexBytesAt(bytes: seq<Octet>, upper: bool, k: nat)
    requires k < 2 * |bytes|
    ensures HexBytes(bytes, upper)[k] == HexChar(HalfByte(bytes, k), upper)
  {
    hide HexChar;
    var n := |bytes| - 1;
    if k < 2 * n { HexBytesAt(bytes[..n], upper, k); }
  }

  // ---------------------------------------------------------------- the printer

  /** Whole digits, then one for the bits that are left with a tag behind them, marked by an underscore. */
  ghost predicate HexText(bytes: seq<Octet>, n: nat, upper: bool, out: string)
    requires n <= 8 * |bytes|
  {
    && |out| == n / 4 + (if n % 4 != 0 then 2 else 0)
    && (forall k :: 0 <= k < n / 4 ==> DigitFor(out[k], BitsUint(Window(bytes, 4 * k, 4)), upper))
    && (n % 4 != 0 ==>
          && out[n / 4 + 1] == '_'
          && DigitFor(out[n / 4], BitsUint(Window(bytes, n - n % 4, n % 4) + [true] + Repeat(false, 3 - n % 4)), upper))
  }

  lemma {:induction false} LastDigitsAre(bytes: seq<Octet>, n: nat, upper: bool)
    requires n <= 8 * |bytes| && n % 8 != 0
    ensures var out := LastDigits(bytes[n / 8], n % 8, upper);
      && |out| == (if n % 8 >= 4 then 1 else 0) + (if n % 4 != 0 then 2 else 0)
      && (n % 8 >= 4 ==> out[0] == HexChar(bytes[n / 8][..4], upper))
      && (n % 4 != 0 ==>
            && out[|out| - 1] == '_'
            && out[|out| - 2] ==
                 HexChar(Window(bytes, n - n % 4, n % 4) + [true] + Repeat(false, 3 - n % 4), upper))
  {
    hide HexChar, Window, Tagged;
    var b, rem := bytes[n / 8], n % 8;
    TailWindow(bytes, n);
    TaggedHalves(b, rem);
    assert n % 4 == rem % 4;
  }

  lemma {:induction false} TailWindow(bytes: seq<Octet>, n: nat)
    requires n <= 8 * |bytes| && n % 8 != 0
    ensures Window(bytes, n - n % 4, n % 4) == bytes[n / 8][4 * (n % 8 / 4)..n % 8]
  {
    var b, from := bytes[n / 8], 4 * (n % 8 / 4);
    forall j | 0 <= j < n % 4
      ensures Window(bytes, n - n % 4, n % 4)[j] == b[from..n % 8][j]
    {
      assert (n - n % 4 + j) / 8 == n / 8 && (n - n % 4 + j) % 8 == from + j;
    }
  }

  lemma {:induction false} TaggedHalves(b: Octet, rem: nat)
    requires 0 < rem < 8
    ensures var t := Tagged(b, rem);
      && (rem >= 4 ==> t[..4] == b[..4])
      && (rem < 4 ==> t[..4] == b[..rem] + [true] + Repeat(false, 3 - rem))
      && (rem > 4 ==> t[4..] == b[4..rem] + [true] + Repeat(false, 7 - rem))
  {
    hide Tagged;
    var t := Tagged(b, rem);
    assert t == b[..rem] + [true] + Repeat(false, 7 - rem);
  }

  lemma {:induction false} ShownDigit(bytes: seq<Octet>, n: nat, upper: bool, k: nat, last: string)
    requires n <= 8 * |bytes| && k < n / 4
    requires n % 8 >= 4 ==> last != "" && last[0] == HexChar(bytes[n / 8][..4], upper)
    ensures var out := HexBytes(bytes[..n / 8], upper) + last;
      k < |out| && DigitFor(out[k], BitsUint(Window(bytes, 4 * k, 4)), upper)
  {
    hide HexChar, HexBytes, Window, BitsUint, DigitFor;
    var whole := bytes[..n / 8];
    HalfWindow(bytes, k);
    CharIs(HalfByte(bytes, k), upper);
    if k < 2 * |whole| {
      HexBytesAt(whole, upper, k);
    } else {
      assert k == 2 * (n / 8) && n % 8 >= 4;
    }
  }

  /** The printer writes these digits, for all bytes and lengths. */
  lemma {:induction false} ShowHexIs(bytes: seq<Octet>, bitLen: nat, upper: bool)
    ensures var n := if bitLen <= 8 * |bytes| then bitLen else 8 * |bytes|; HexText(bytes, n, upper, ShowHex(bytes, bitLen, upper))
  {
    hide HexChar, LastDigits, HexBytes, Window, BitsUint, Tagged;
    var n := PrintedLen(bytes, bitLen);
    var whole := bytes[..n / 8];
    var out := ShowHex(bytes, bitLen, upper);
    var last := if n % 8 == 0 then "" else LastDigits(bytes[n / 8], n % 8, upper);
    if n % 8 != 0 { LastDigitsAre(bytes, n, upper); }
    forall k | 0 <= k < n / 4
      ensures DigitFor(out[k], BitsUint(Window(bytes, 4 * k, 4)), upper)
    {
      ShownDigit(bytes, n, upper, k, last);
    }
    if n % 4 != 0 {
      CharIs(Window(bytes, n - n % 4, n % 4) + [true] + Repeat(false, 3 - n % 4), upper);
    }
  }

  // ---------------------------------------------------------------- the parser

  /** The bytes that digits spell, the last one filled up with zeros. */
  ghost predicate Spelled(digits: string, all: seq<Octet>) {
    && |all| == (|digits| + 1) / 2
    && (forall k :: 0 <= k < |digits| ==> AnyDigitFor(digits[k], BitsUint(HalfByte(all, k))))
    && (|digits| % 2 == 1 ==> all[|digits| / 2][4..] == Repeat(false, 4))
  }

  lemma {:induction false} ValueIs(c: char, n: Nibble)
    ensures HexValue(c) == Some(n) <==> AnyDigitFor(c, BitsUint(n))
  {
    BitsUintBound(n);
    assert Pow2(4) == 16;
    UintBitsOfBits(n);
    forall v: nat | v < 16
      ensures BitsUint(UintBits(v, 4)) == v
    {
      BitsOfUintBits(v, 4);
    }
  }

  lemma {:induction false} PairsIff(s: string, all: seq<Octet>)
    requires |s| % 2 == 0
    ensures DecodePairs(s) == Some(all) <==> Spelled(s, all)
  {
    hide HexValue, BitsUint;
    if s != "" {
      var n := |s| - 2;
      if all != [] {
        var front, last := all[..|all| - 1], all[|all| - 1];
        PairsIff(s[..n], front);
        ValueIs(s[n], last[..4]);
        ValueIs(s[n + 1], last[4..]);
        assert last == last[..4] + last[4..] && all == front + [last];
        SpelledLast(s, all);
      }
    }
  }

  lemma {:induction false} SpelledLast(s: string, all: seq<Octet>)
    requires |s| % 2 == 0 && s != "" && all != []
    ensures var n, last := |s| - 2, all[|all| - 1];
      Spelled(s, all) <==>
        && Spelled(s[..n], all[..|all| - 1])
        && AnyDigitFor(s[n], BitsUint(last[..4])) && AnyDigitFor(s[n + 1], BitsUint(last[4..]))
  {
    hide BitsUint;
    var n := |s| - 2;
    var front := all[..|all| - 1];
    if |all| == |s| / 2 {
      assert forall k :: 0 <= k < n ==> s[..n][k] == s[k] && HalfByte(front, k) == HalfByte(all, k);
      assert HalfByte(all, n) == all[|all| - 1][..4] && HalfByte(all, n + 1) == all[|all| - 1][4..];
      if Spelled(s[..n], front) && AnyDigitFor(s[n], BitsUint(HalfByte(all, n))) && AnyDigitFor(s[n + 1], BitsUint(HalfByte(all, n + 1))) {
        forall k | 0 <= k < |s|
          ensures AnyDigitFor(s[k], BitsUint(HalfByte(all, k)))
        {
          if k < n { assert s[..n][k] == s[k]; }
        }
      }
    }
  }

  predicate NoneSet(data: seq<Octet>, from: nat) {
    forall k :: from <= k < 8 * |data| ==> !BitAt(data, k)
  }

  /** The bits before the last one that is set, or nothing when none is; what is left of the last byte is cleared. */
  predicate Untagged(all: seq<Octet>, data: seq<Octet>, n: nat) {
    && (if NoneSet(all, 0) then n == 0 else n < 8 * |all| && BitAt(all, n) && NoneSet(all, n + 1))
    && SameStart(all, data, n)
  }

  predicate SameStart(all: seq<Octet>, data: seq<Octet>, n: nat) {
    && |data| == (n + 7) / 8 && n <= 8 * |all|
    && (forall k :: 0 <= k < n ==> BitAt(data, k) == BitAt(all, k)) && NoneSet(data, n)
  }

  lemma {:induction false} BitsDecide(a: seq<Octet>, b: seq<Octet>)
    requires |a| == |b| && forall k :: 0 <= k < 8 * |a| ==> BitAt(a, k) == BitAt(b, k)
    ensures a == b
  {
    forall i | 0 <= i < |a|
      ensures a[i] == b[i]
    {
      forall j | 0 <= j < 8
        ensures a[i][j] == b[i][j]
      {
        assert (8 * i + j) / 8 == i && (8 * i + j) % 8 == j;
        assert BitAt(a, 8 * i + j) == BitAt(b, 8 * i + j);
      }
    }
  }

  lemma {:induction false} UntaggedOnce(all: seq<Octet>, data: seq<Octet>, n: nat, data': seq<Octet>, n': nat)
    requires Untagged(all, data, n) && Untagged(all, data', n')
    ensures data == data' && n == n'
  {
    hide BitAt;
    assert n == n';
    BitsDecide(data, data');
  }

  lemma {:induction false} UntagIs(all: seq<Octet>)
    ensures Untagged(all, Untag(all).0, Untag(all).1)
  {
    hide And, HighMask, TrailingZeros;
    if all != [] {
      var last, init := all[|all| - 1], all[..|all| - 1];
      UntagIs(init);
      BitsBefore(all);
      if IsZero(last) {
        NoneMore(all);
      } else {
        LastUntagged(all);
      }
    }
  }

  /** A zero byte at the end changes nothing. */
  lemma {:induction false} NoneMore(all: seq<Octet>)
    requires all != [] && IsZero(all[|all| - 1])
    ensures var init := all[..|all| - 1];
      forall data, n :: Untagged(init, data, n) ==> Untagged(all, data, n)
  {
    var init := all[..|all| - 1];
    BitsBefore(all);
    assert forall k :: 8 * |init| <= k < 8 * |all| ==> !BitAt(all, k);
    forall from: nat | from <= 8 * |init|
      ensures NoneSet(all, from) <==> NoneSet(init, from)
    {
      hide BitAt;
      if NoneSet(init, from) {
        forall k | from <= k < 8 * |all|
          ensures !BitAt(all, k)
        {
          if k < 8 * |init| { assert BitAt(all, k) == BitAt(init, k); }
        }
      }
      if NoneSet(all, from) {
        forall k | from <= k < 8 * |init|
          ensures !BitAt(init, k)
        {
          assert BitAt(all, k) == BitAt(init, k);
        }
      }
    }
  }

  lemma {:induction false} LastUntagged(all: seq<Octet>)
    requires all != [] && !IsZero(all[|all| - 1])
    ensures Untagged(all, Untag(all).0, Untag(all).1)
  {
    hide And, HighMask, TrailingZeros;
    var last, init := all[|all| - 1], all[..|all| - 1];
    var (data, n) := Untag(all);
    var kept := 7 - TrailingZeros(last);
    TagSet(last);
    MaskedBits(last, kept);
    BitsBefore(all);
    assert n == 8 * |init| + kept && n / 8 == |init| && n % 8 == kept && BitAt(all, n);
    forall k | n + 1 <= k < 8 * |all|
      ensures !BitAt(all, k)
    {
      assert k / 8 == |init| && k % 8 > kept;
    }
    forall k | 0 <= k < n
      ensures k < 8 * |data| && BitAt(data, k) == BitAt(all, k)
    {
      if k >= 8 * |init| {
        assert k / 8 == |init| && k % 8 < kept;
      } else {
        assert data[k / 8] == init[k / 8];
      }
    }
    forall k | n <= k < 8 * |data|
      ensures !BitAt(data, k)
    {
      assert k / 8 == |init| && k % 8 >= kept;
    }
  }

  lemma {:induction false} TagSet(x: Octet)
    requires !IsZero(x)
    ensures TrailingZeros(x) < 8 && x[7 - TrailingZeros(x)] && forall j :: 7 - TrailingZeros(x) < j < 8 ==> !x[j]
  {
    AllZeroBits(x);
  }

  lemma {:induction false} MaskedBits(x: Octet, kept: nat)
    requires kept < 8
    ensures var m := And(x, HighMask(kept)); |m| == 8 && forall j :: 0 <= j < 8 ==> m[j] == (j < kept && x[j])
  {
  }

  lemma {:induction false} BitsBefore(all: seq<Octet>)
    requires all != []
    ensures forall k :: 0 <= k < 8 * (|all| - 1) ==> BitAt(all, k) == BitAt(all[..|all| - 1], k)
  {
  }

  /** What the text spells: at most 256 characters, digits, and maybe an underscore that asks for a tag. */
  ghost predicate HexSpells(s: string, data: seq<Octet>, n: nat) {
    && |s| <= 256
    && var tagged := s != "" && s[|s| - 1] == '_';
       var digits := if tagged then s[..|s| - 1] else s;
       if tagged then exists all: seq<Octet> :: Spelled(digits, all) && Untagged(all, data, n)
       else Spelled(digits, data) && n == 4 * |digits|
  }

  /** Half a byte at the end: its digit, and four zero bits. */
  lemma {:induction false} HalfIff(digits: string, all: seq<Octet>)
    requires |digits| % 2 == 1
    ensures var n := |digits| - 1; var half, front := HexValue(digits[n]), DecodePairs(digits[..n]);
      (half.Some? && front.Some? && all == front.value + [half.value + Repeat(false, 4)]) <==> Spelled(digits, all)
  {
    hide HexValue, BitsUint, DecodePairs;
    var n := |digits| - 1;
    if all != [] {
      var front, last := all[..|all| - 1], all[|all| - 1];
      assert all == front + [last] && last == last[..4] + last[4..];
      PairsIff(digits[..n], front);
      ValueIs(digits[n], last[..4]);
      HalfLast(digits, all);
      if HexValue(digits[n]).Some? && DecodePairs(digits[..n]).Some? {
        var h, f := HexValue(digits[n]).value, DecodePairs(digits[..n]).value;
        PairsIff(digits[..n], f);
        assert (h + Repeat(false, 4))[..4] == h && (h + Repeat(false, 4))[4..] == Repeat(false, 4);
        assert all == f + [h + Repeat(false, 4)] <==> front == f && last == h + Repeat(false, 4);
      }
    }
  }

  lemma {:induction false} HalfLast(digits: string, all: seq<Octet>)
    requires |digits| % 2 == 1 && all != []
    ensures var n, last := |digits| - 1, all[|all| - 1];
      Spelled(digits, all) <==>
        Spelled(digits[..n], all[..|all| - 1]) && AnyDigitFor(digits[n], BitsUint(last[..4])) && last[4..] == Repeat(false, 4)
  {
    hide BitsUint;
    var n := |digits| - 1;
    var front := all[..|all| - 1];
    if |all| == n / 2 + 1 {
      assert forall k :: 0 <= k < n ==> digits[..n][k] == digits[k] && HalfByte(front, k) == HalfByte(all, k);
      assert HalfByte(all, n) == all[|all| - 1][..4];
      if Spelled(digits[..n], front) && AnyDigitFor(digits[n], BitsUint(HalfByte(all, n))) {
        forall k | 0 <= k < |digits|
          ensures AnyDigitFor(digits[k], BitsUint(HalfByte(all, k)))
        {
          if k < n { assert digits[..n][k] == digits[k]; }
        }
      }
    }
  }

  /** All of these characters are ASCII, and none is an underscore. */
  lemma {:induction false} DigitsAscii(digits: string, all: seq<Octet>)
    requires Spelled(digits, all)
    ensures IsAscii(digits) && '_' !in digits
  {
    hide BitsUint, HalfByte;
    assert forall k :: 0 <= k < |digits| ==> AnyDigitFor(digits[k], BitsUint(HalfByte(all, k)));
  }

  /** What the parser makes of digits, before any tag is removed. */
  function RawHex(digits: string): Option<seq<Octet>> {
    var n := |digits| - |digits| % 2;
    var half := if |digits| % 2 != 0 then HexValue(digits[n]) else None;
    if |digits| % 2 != 0 && half.None? then None
    else
      match DecodePairs(digits[..n])
      case None => None
      case Some(front) => Some(if half.Some? then front + [half.value + Repeat(false, 4)] else front)
  }

  lemma {:induction false} RawIff(digits: string, all: seq<Octet>)
    ensures RawHex(digits) == Some(all) <==> Spelled(digits, all)
  {
    hide HexValue, DecodePairs, Spelled;
    if |digits| % 2 == 0 {
      assert digits[..|digits|] == digits;
      PairsIff(digits, all);
    } else {
      HalfIff(digits, all);
    }
  }

  lemma {:induction false} ParseIsRaw(s: string)
    ensures var (digits, tagged) := StripTag(s); var raw := RawHex(digits);
      ParseHex(s) ==
        if !IsAscii(s) || |s| > 256 || raw.None? then None
        else if tagged then Some(Untag(raw.value)) else Some((raw.value, 4 * |digits|))
  {
    hide HexValue, Untag, DecodePairs, IsAscii;
    var (digits, tagged) := StripTag(s);
    if |digits| % 2 == 0 {
      assert digits[..|digits|] == digits;
      PairsLength(digits);
    } else {
      PairsLength(digits[..|digits| - 1]);
    }
  }

  lemma {:induction false} PairsLength(s: string)
    requires |s| % 2 == 0
    ensures DecodePairs(s).Some? ==> |DecodePairs(s).value| == |s| / 2
  {
    hide HexValue;
    if s != "" { PairsLength(s[..|s| - 2]); }
  }

  /** The parser returns exactly what a text spells. */
  lemma {:induction false} ParseHexIff(s: string, data: seq<Octet>, n: nat)
    ensures ParseHex(s) == Some((data, n)) <==> HexSpells(s, data, n)
  {
    hide ParseHex, RawHex, Spelled, Untag, Untagged;
    var (digits, tagged) := StripTag(s);
    ParseIsRaw(s);
    var raw := RawHex(digits);
    if raw.Some? {
      RawIff(digits, raw.value);
      DigitsAscii(digits, raw.value);
      UntagIs(raw.value);
      assert IsAscii(s);
    }
    forall all: seq<Octet>
      ensures Spelled(digits, all) <==> raw == Some(all)
    {
      RawIff(digits, all);
    }
    if tagged && HexSpells(s, data, n) {
      var all: seq<Octet> :| Spelled(digits, all) && Untagged(all, data, n);
      UntaggedOnce(all, data, n, Untag(all).0, Untag(all).1);
    }
  }
}
