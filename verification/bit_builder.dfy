/** The fixed buffer of a cell builder: stores at any alignment append exactly the given bits. */
module BitBuilder {
  import opened Cells
  import opened BitBytes
  import opened BitScan

  const BUFFER_BYTES: nat := 128

  // ---------------------------------------------------------------- what a store leaves in the buffer

  /** Bit `k` after writing `v` at bit `at`: the old bits before, zeros behind. */
  predicate WrittenAt(was: seq<Octet>, now: seq<Octet>, at: nat, v: seq<bool>, k: nat)
    requires k < 8 * |was| && |now| == |was|
  {
    BitAt(now, k) == (if k < at then BitAt(was, k) else k < at + |v| && v[k - at])
  }

  ghost predicate Written(was: seq<Octet>, now: seq<Octet>, at: nat, v: seq<bool>) {
    |now| == |was| && at + |v| <= 8 * |was| && forall k :: 0 <= k < 8 * |was| ==> WrittenAt(was, now, at, v, k)
  }

  /** The buffer is zero from bit `at` on. */
  ghost predicate ClearFrom(data: seq<Octet>, at: nat) { at <= 8 * |data| && Written(data, data, at, []) }

  lemma {:induction false} ClearBit(data: seq<Octet>, at: nat, k: nat)
    requires ClearFrom(data, at) && at <= k < 8 * |data|
    ensures !BitAt(data, k)
  {
    hide BitAt;
    assert WrittenAt(data, data, at, [], k);
  }

  /** Replacing one byte changes its own bits only. */
  lemma {:induction false} PutBits(now: seq<Octet>, p: nat, x: Octet, k: nat)
    requires p < |now| && k < 8 * |now|
    ensures BitAt(now[p := x], k) == if k / 8 == p then x[k % 8] else BitAt(now, k)
  {
  }

  /** Or-ing a shifted byte into the last byte appends its first bits. */
  lemma {:induction false} PutOr(was: seq<Octet>, now: seq<Octet>, at: nat, v: seq<bool>, p: nat, r: nat, x: Octet)
    requires Written(was, now, at, v) && at + |v| == 8 * p + r && r < 8 && p < |was|
    ensures Written(was, now[p := Or(now[p], Shr(x, r))], at, v + x[..8 - r])
  {
    hide BitAt, Shr, Or;
    var y: Octet := Or(now[p], Shr(x, r));
    var result, all := now[p := y], v + x[..8 - r];
    forall k | 0 <= k < 8 * |was|
      ensures WrittenAt(was, result, at, all, k)
    {
      assert WrittenAt(was, now, at, v, k);
      PutBits(now, p, y, k);
      if k / 8 == p {
        BitOf(now, p, k % 8);
        assert k == 8 * p + k % 8;
      }
    }
  }

  /** Writing a byte where the bits written so far end appends it. */
  lemma {:induction false} PutByte(was: seq<Octet>, now: seq<Octet>, at: nat, v: seq<bool>, p: nat, x: Octet)
    requires Written(was, now, at, v) && at + |v| == 8 * p && p < |was|
    ensures Written(was, now[p := x], at, v + x)
  {
    hide BitAt;
    var result, all := now[p := x], v + x;
    forall k | 0 <= k < 8 * |was|
      ensures WrittenAt(was, result, at, all, k)
    {
      assert WrittenAt(was, now, at, v, k);
      PutBits(now, p, x, k);
      if k / 8 == p { assert k == 8 * p + k % 8; }
    }
  }

  /** Masking the last byte cuts the written bits. */
  lemma {:induction false} PutMask(was: seq<Octet>, now: seq<Octet>, at: nat, v: seq<bool>, p: nat, r: nat, n: nat)
    requires Written(was, now, at, v) && n <= |v| && at + n == 8 * p + r && r <= 8 && at + |v| <= 8 * (p + 1) && p < |was|
    ensures Written(was, now[p := And(now[p], HighMask(r))], at, v[..n])
  {
    hide BitAt, HighMask;
    var y: Octet := And(now[p], HighMask(r));
    var result, all := now[p := y], v[..n];
    forall k | 0 <= k < 8 * |was|
      ensures WrittenAt(was, result, at, all, k)
    {
      assert WrittenAt(was, now, at, v, k);
      PutBits(now, p, y, k);
      if k / 8 == p {
        BitOf(now, p, k % 8);
        assert k == 8 * p + k % 8;
      }
    }
  }

  /** Zeros at the end of what was written need not be counted. */
  lemma {:induction false} Trim(was: seq<Octet>, now: seq<Octet>, at: nat, v: seq<bool>, n: nat)
    requires Written(was, now, at, v) && n <= |v| && forall i :: n <= i < |v| ==> !v[i]
    ensures Written(was, now, at, v[..n])
  {
    hide BitAt;
    forall k | 0 <= k < 8 * |was|
      ensures WrittenAt(was, now, at, v[..n], k)
    {
      assert WrittenAt(was, now, at, v, k);
    }
  }

  /** What was appended, read back from the front. */
  lemma {:induction false} Appended(was: seq<Octet>, now: seq<Octet>, length: nat, at: nat, v: seq<bool>)
    requires ClearFrom(was, length) && length <= at && Written(was, now, at, v)
    ensures ClearFrom(now, at + |v|)
    ensures Window(now, 0, at + |v|) == Window(was, 0, length) + Repeat(false, at - length) + v
  {
    hide BitAt;
    forall k | 0 <= k < 8 * |was|
      ensures WrittenAt(now, now, at + |v|, [], k)
      ensures length <= k < at ==> !BitAt(now, k)
    {
      assert WrittenAt(was, now, at, v, k);
      if length <= k < at { ClearBit(was, length, k); }
    }
    var s, t := Window(now, 0, at + |v|), Window(was, 0, length) + Repeat(false, at - length) + v;
    forall k | 0 <= k < |s|
      ensures s[k] == t[k]
    {
      assert WrittenAt(was, now, at, v, k);
    }
  }

  lemma {:induction false} NothingWritten(was: seq<Octet>, length: nat, at: nat)
    requires ClearFrom(was, length) && length <= at <= 8 * |was|
    ensures Written(was, was, at, [])
  {
    hide BitAt;
    forall k | 0 <= k < 8 * |was|
      ensures WrittenAt(was, was, at, [], k)
    {
      assert WrittenAt(was, was, length, [], k);
    }
  }

  // ---------------------------------------------------------------- raw bytes

  /** How many bits of the value are stored: its bit length is cut to sixteen bits first. */
  function StoredLen(value: seq<Octet>, bits: nat): (m: nat)
    ensures m <= bits && m <= 8 * |value|
  {
    Min(bits, 8 * |value| % U16_SIZE)
  }

  /** The bits that storing `bits` bits of a value appends: too short a value is padded at the front. */
  function RawBits(value: seq<Octet>, bits: nat): (s: seq<bool>)
    ensures |s| == bits
  {
    Repeat(false, bits - StoredLen(value, bits)) + Window(value, 0, StoredLen(value, bits))
  }

  /** What the caller asks for: the first bits of the value, or all of them behind zeros. */
  function Intended(value: seq<Octet>, bits: nat): (s: seq<bool>)
    ensures |s| == bits
  {
    if bits <= 8 * |value| then Window(value, 0, bits)
    else Repeat(false, bits - 8 * |value|) + Window(value, 0, 8 * |value|)
  }

  /** The bit length of the value survives the cut to sixteen bits, or what is left of it is still enough. */
  predicate LengthSurvives(len: nat, bits: nat) { len < 0x2000 || bits <= 8 * len % U16_SIZE }

  lemma {:induction false} RawBitsMeaning(value: seq<Octet>, bits: nat)
    requires LengthSurvives(|value|, bits)
    ensures RawBits(value, bits) == Intended(value, bits)
  {
    hide BitAt, Window;
  }

  /** Values of one length are all stored as intended exactly when their length survives. */
  lemma {:induction false} RawBitsIntended(len: nat, bits: nat)
    ensures (forall value: seq<Octet> :: |value| == len ==> RawBits(value, bits) == Intended(value, bits)) <==>
      LengthSurvives(len, bits)
  {
    hide Window, RawBits, Intended;
    forall value: seq<Octet> | |value| == len && LengthSurvives(len, bits)
      ensures RawBits(value, bits) == Intended(value, bits)
    {
      RawBitsMeaning(value, bits);
    }
    if !LengthSurvives(len, bits) {
      var value := AllOnes(len);
      OnesLost(len, bits);
      assert |value| == len && RawBits(value, bits) != Intended(value, bits);
    }
  }

  function AllOnes(len: nat): (value: seq<Octet>)
    ensures |value| == len && forall k :: 0 <= k < 8 * len ==> BitAt(value, k)
  {
    seq(len, _ => ONES)
  }

  /** The first bit of the value gets lost, whatever its length. */
  lemma {:induction false} OnesLost(len: nat, bits: nat)
    requires !LengthSurvives(len, bits)
    ensures RawBits(AllOnes(len), bits) != Intended(AllOnes(len), bits)
  {
    hide BitAt;
    var value, m := AllOnes(len), 8 * len % U16_SIZE;
    assert StoredLen(value, bits) == m < bits && m < 8 * len;
    var k := if bits <= 8 * len then 0 else bits - 8 * len;
    assert Intended(value, bits)[k] && !RawBits(value, bits)[k];
  }

  /** Eight kilobytes of ones count as empty: their first byte is stored as zeros. */
  lemma {:induction false} LongValueLost()
    ensures RawBits(AllOnes(0x2000), 8) == Repeat(false, 8)
    ensures Intended(AllOnes(0x2000), 8) == Repeat(true, 8)
  {
    hide BitAt;
    assert StoredLen(AllOnes(0x2000), 8) == 0;
  }

  lemma {:induction false} WindowNext(value: seq<Octet>, i: nat)
    requires i < |value|
    ensures Window(value, 0, 8 * (i + 1)) == Window(value, 0, 8 * i) + value[i]
  {
    hide BitAt;
    var s, t := Window(value, 0, 8 * (i + 1)), Window(value, 0, 8 * i) + value[i];
    forall k | 0 <= k < 8 * (i + 1)
      ensures s[k] == t[k]
    {
      if k >= 8 * i { BitOf(value, i, k - 8 * i); }
    }
  }

  class CellDataBuilder {
    const data: array<Octet>
    var bitLen: nat

    ghost predicate Valid()
      reads this, data
    {
      data.Length == BUFFER_BYTES && bitLen <= MAX_BIT_LEN && ClearFrom(data[..], bitLen)
    }

    /** The bits stored so far. */
    ghost function Bits(): seq<bool>
      reads this, data
      requires Valid()
    {
      Window(data[..], 0, bitLen)
    }

    constructor ()
      ensures Valid() && Bits() == [] && fresh(data)
    {
      data := new Octet[BUFFER_BYTES](_ => ZERO);
      bitLen := 0;
      new;
      ZeroBuffer(data[..]);
    }

    /** Raw bytes, most significant bits first; anything behind the last bit is masked off. */
    method StoreRaw(value: seq<Octet>, bits: nat) returns (ok: bool)
      requires Valid()
      modifies this, data
      ensures Valid() && ok == (old(bitLen) + bits <= MAX_BIT_LEN)
      ensures Bits() == if ok then old(Bits()) + RawBits(value, bits) else old(Bits())
      ensures ok && LengthSurvives(|value|, bits) ==> Bits() == old(Bits()) + Intended(value, bits)
    {
      hide BitAt, Window, ClearFrom, Written, Or, And, Shl, Shr, HighMask, Intended;
      if bitLen + bits > MAX_BIT_LEN { return false; }
      if LengthSurvives(|value|, bits) { RawBitsMeaning(value, bits); }
      var n := StoredLen(value, bits);
      var at := bitLen + (bits - n);
      ghost var was := data[..];
      NothingWritten(was, bitLen, at);
      if n > 0 {
        if at % 8 == 0 { StoreAligned(value, n, at, was); } else { StoreShifted(value, n, at, was); }
      } else {
        assert Window(value, 0, 0) == [];
      }
      Appended(was, data[..], bitLen, at, Window(value, 0, n));
      assert Window(was, 0, bitLen) + RawBits(value, bits) ==
        Window(was, 0, bitLen) + Repeat(false, bits - n) + Window(value, 0, n);
      bitLen := at + n;
      return true;
    }

    /** Copies bytes, then masks the last one. */
    method StoreAligned(value: seq<Octet>, n: nat, at: nat, ghost was: seq<Octet>)
      requires data.Length == BUFFER_BYTES && data[..] == was && Written(was, was, at, [])
      requires at % 8 == 0 && 0 < n <= 8 * |value| && at + n <= MAX_BIT_LEN
      modifies data
      ensures Written(was, data[..], at, Window(value, 0, n))
    {
      hide BitAt, Window, Written, And, HighMask;
      var q, byteLen := at / 8, CeilDiv8(n);
      EmptyWindow(value);
      for i := 0 to byteLen
        invariant Written(was, data[..], at, Window(value, 0, 8 * i))
      {
        WindowNext(value, i);
        PutByte(was, data[..], at, Window(value, 0, 8 * i), q + i, value[i]);
        data[q + i] := value[i];
      }
      if n % 8 != 0 {
        PutMask(was, data[..], at, Window(value, 0, 8 * byteLen), q + byteLen - 1, n % 8, n);
        CutWindow(value, 8 * byteLen, n);
        data[q + byteLen - 1] := And(data[q + byteLen - 1], HighMask(n % 8));
      }
    }

    /** Spreads every byte over two, then masks the last one. */
    method StoreShifted(value: seq<Octet>, n: nat, at: nat, ghost was: seq<Octet>)
      requires data.Length == BUFFER_BYTES && data[..] == was && Written(was, was, at, [])
      requires at % 8 != 0 && 0 < n <= 8 * |value| && at + n <= MAX_BIT_LEN
      modifies data
      ensures Written(was, data[..], at, Window(value, 0, n))
    {
      hide BitAt, Window, Written, Or, And, Shl, Shr, HighMask;
      var q, r := at / 8, at % 8;
      var byteLen, valueLen := CeilDiv8(n + r) - 1, CeilDiv8(n);
      EmptyWindow(value);
      for i := 0 to byteLen
        invariant Written(was, data[..], at, Window(value, 0, 8 * i))
      {
        WindowNext(value, i);
        SpreadByte(was, data[..], at, Window(value, 0, 8 * i), q + i, r, value[i]);
        data[q + i] := Or(data[q + i], Shr(value[i], r));
        data[q + i + 1] := Shl(value[i], 8 - r);
      }
      ghost var v := Window(value, 0, 8 * byteLen);
      if byteLen < valueLen {
        PutOr(was, data[..], at, v, q + byteLen, r, value[byteLen]);
        WindowNext(value, byteLen);
        CutWindow(value, 8 * (byteLen + 1), 8 * byteLen + 8 - r);
        assert Window(value, 0, 8 * (byteLen + 1))[..8 * byteLen + 8 - r] == v + value[byteLen][..8 - r];
        v := Window(value, 0, 8 * byteLen + 8 - r);
        data[q + byteLen] := Or(data[q + byteLen], Shr(value[byteLen], r));
      }
      if (r + n) % 8 != 0 {
        PutMask(was, data[..], at, v, q + byteLen, (r + n) % 8, n);
        CutWindow(value, |v|, n);
        data[q + byteLen] := And(data[q + byteLen], HighMask((r + n) % 8));
      }
    }

    /** One bit. */
    method StoreBit(value: bool) returns (ok: bool)
      requires Valid()
      modifies this, data
      ensures Valid() && ok == (old(bitLen) < MAX_BIT_LEN)
      ensures Bits() == if ok then old(Bits()) + [value] else old(Bits())
    {
      hide BitAt, Window, ClearFrom, Written, Or, Shr;
      if bitLen >= MAX_BIT_LEN { return false; }
      ghost var was := data[..];
      NothingWritten(was, bitLen, bitLen);
      if value {
        var q, r, x: Octet := bitLen / 8, bitLen % 8, [true] + Repeat(false, 7);
        PutOr(was, was, bitLen, [], q, r, x);
        assert [] + x[..8 - r] == x[..8 - r] && x[..8 - r][..1] == [true];
        data[q] := Or(data[q], Shr(x, r));
        Trim(was, data[..], bitLen, x[..8 - r], 1);
        Appended(was, data[..], bitLen, bitLen, [true]);
        assert Window(was, 0, bitLen) + [] + [true] == Window(was, 0, bitLen) + [true];
      } else {
        Zeros(was, bitLen, 1);
        assert Repeat(false, 1) == [false];
      }
      bitLen := bitLen + 1;
      return true;
    }

    method StoreZeros(bits: nat) returns (ok: bool)
      requires Valid()
      modifies this`bitLen
      ensures Valid() && ok == (old(bitLen) + bits <= MAX_BIT_LEN)
      ensures Bits() == if ok then old(Bits()) + Repeat(false, bits) else old(Bits())
    {
      hide BitAt, Window, ClearFrom, Written;
      ok := bitLen + bits <= MAX_BIT_LEN;
      if ok {
        Zeros(data[..], bitLen, bits);
        bitLen := bitLen + bits;
      }
    }

    /** The low `bits` bits of a number below 2^64, behind zeros when there are more than 64. */
    method StoreUint(value: nat, bits: nat) returns (ok: bool)
      requires Valid() && value < Pow2(64)
      modifies this, data
      ensures Valid() && ok == (bits == 0 || old(bitLen) + bits <= MAX_BIT_LEN)
      ensures Bits() == if ok then old(Bits()) + UintBits(value, bits) else old(Bits())
    {
      hide BitAt, Window, ClearFrom, Written, UintBits, Shl, Pow2;
      if bits == 0 {
        NoUintBits(value);
        assert Bits() + [] == Bits();
        return true;
      }
      if bitLen + bits > MAX_BIT_LEN { return false; }
      var n := if bits >= 64 then 64 else bits;
      var at := bitLen + (bits - n);
      var word := Shl(UintBits(value, 64), 64 - n);
      ghost var was := data[..];
      NothingWritten(was, bitLen, at);
      UintSuffix(value, 64, n);
      assert word[..n] == UintBits(value, 64)[64 - n..];
      PutWord(word, n, at, was);
      UintPadded(value, n, bits);
      NumberAppended(was, data[..], bitLen, at, value, n, bits);
      bitLen := at + n;
      return true;
    }

    /** A number of 16, 32, 64 or 128 bits. */
    method StoreWide(value: nat, width: nat) returns (ok: bool)
      requires Valid() && width % 8 == 0 && width > 0 && value < Pow2(width)
      modifies this, data
      ensures Valid() && ok == (old(bitLen) + width <= MAX_BIT_LEN)
      ensures Bits() == if ok then old(Bits()) + UintBits(value, width) else old(Bits())
    {
      hide BitAt, Window, ClearFrom, Written, UintBits, Pow2;
      if bitLen + width > MAX_BIT_LEN { return false; }
      var word := UintBits(value, width);
      ghost var was, at := data[..], bitLen;
      NothingWritten(was, bitLen, bitLen);
      PutWord(word, width, bitLen, was);
      assert word[..width] == word;
      Appended(was, data[..], bitLen, bitLen, word);
      assert Window(was, 0, at) + [] + word == Window(was, 0, at) + word;
      bitLen := bitLen + width;
      return true;
    }

    /** Writes the first `n` bits of a left-aligned word. */
    method PutWord(word: seq<bool>, n: nat, at: nat, ghost was: seq<Octet>)
      requires data.Length == BUFFER_BYTES && data[..] == was && Written(was, was, at, [])
      requires 0 < n <= |word| && |word| % 8 == 0 && at + n <= MAX_BIT_LEN && forall i :: n <= i < |word| ==> !word[i]
      modifies data
      ensures Written(was, data[..], at, word[..n])
    {
      hide BitAt, Written;
      if at % 8 == 0 {
        CopyWord(word, at / 8, CeilDiv8(n), at, was, []);
        assert [] + word[..8 * CeilDiv8(n)] == word[..8 * CeilDiv8(n)];
        Trim(was, data[..], at, word[..8 * CeilDiv8(n)], n);
        assert word[..8 * CeilDiv8(n)][..n] == word[..n];
      } else {
        PutShifted(word, n, at, was);
      }
    }

    /** The high bits complete a byte, the others are shifted into the bytes behind it. */
    method PutShifted(word: seq<bool>, n: nat, at: nat, ghost was: seq<Octet>)
      requires data.Length == BUFFER_BYTES && data[..] == was && Written(was, was, at, []) && at % 8 != 0
      requires 0 < n <= |word| && |word| % 8 == 0 && at + n <= MAX_BIT_LEN && forall i :: n <= i < |word| ==> !word[i]
      modifies data
      ensures Written(was, data[..], at, word[..n])
    {
      hide BitAt, Written, Or, Shr, Shl;
      var q, r := at / 8, at % 8;
      var shift := 8 - r;
      var head: Octet := Shr(word, |word| - shift)[|word| - 8..];
      HeadOfWord(word, r);
      PutOr(was, was, at, [], q, r, word[..8]);
      assert [] + word[..8][..shift] == word[..shift];
      data[q] := Or(data[q], head);
      if n > shift {
        var count := CeilDiv8(n - shift);
        CopyWord(Shl(word, shift), q + 1, count, at, was, word[..shift]);
        ShiftedTail(word, shift, n, count);
        Trim(was, data[..], at, word[..shift] + Shl(word, shift)[..8 * count], n);
      } else {
        Trim(was, data[..], at, word[..shift], n);
        assert word[..shift][..n] == word[..n];
      }
    }

    /** Copies the first bytes of a word to byte `p` and on. */
    method CopyWord(word: seq<bool>, p: nat, count: nat, at: nat, ghost was: seq<Octet>, ghost v: seq<bool>)
      requires data.Length == BUFFER_BYTES && |was| == BUFFER_BYTES && Written(was, data[..], at, v) && at + |v| == 8 * p
      requires 8 * count <= |word| && p + count <= BUFFER_BYTES
      modifies data
      ensures Written(was, data[..], at, v + word[..8 * count])
    {
      hide BitAt, Written;
      assert v + word[..0] == v;
      for i := 0 to count
        invariant Written(was, data[..], at, v + word[..8 * i])
      {
        var x: Octet := word[8 * i..8 * i + 8];
        PutByte(was, data[..], at, v + word[..8 * i], p + i, x);
        data[p + i] := x;
        assert v + word[..8 * i] + x == v + word[..8 * (i + 1)];
      }
    }

    /** The low bits of a byte, behind zeros when there are more than eight. */
    method StoreSmallUint(value: byte, bits: nat) returns (ok: bool)
      requires Valid()
      modifies this, data
      ensures Valid() && ok == (bits == 0 || old(bitLen) + bits <= MAX_BIT_LEN)
      ensures Bits() == if ok then old(Bits()) + UintBits(value, bits) else old(Bits())
    {
      hide BitAt, Window, ClearFrom, Written, UintBits, Shl, Pow2;
      if bits == 0 {
        NoUintBits(value);
        assert Bits() + [] == Bits();
        return true;
      }
      if bitLen + bits > MAX_BIT_LEN { return false; }
      var n := if bits >= 8 then 8 else bits;
      var at := bitLen + (bits - n);
      var x: Octet := Shl(UintBits(value, 8), 8 - n);
      ghost var was := data[..];
      NothingWritten(was, bitLen, at);
      UintSuffix(value, 8, n);
      assert x[..n] == UintBits(value, 8)[8 - n..];
      PutSmall(x, n, at, was);
      SmallPadded(value, n, bits);
      NumberAppended(was, data[..], bitLen, at, value, n, bits);
      bitLen := at + n;
      return true;
    }

    /** Writes the first `n` bits of a left-aligned byte. */
    method PutSmall(x: Octet, n: nat, at: nat, ghost was: seq<Octet>)
      requires data.Length == BUFFER_BYTES && data[..] == was && Written(was, was, at, [])
      requires 0 < n <= 8 && at + n <= MAX_BIT_LEN && forall i :: n <= i < 8 ==> !x[i]
      modifies data
      ensures Written(was, data[..], at, x[..n])
    {
      hide BitAt, Written, Shl, Shr, Or;
      var q, r := at / 8, at % 8;
      if r == 0 {
        PutByte(was, was, at, [], q, x);
        assert [] + x == x;
        data[q] := x;
        Trim(was, data[..], at, x, n);
      } else if n + r > 8 {
        SpreadByte(was, was, at, [], q, r, x);
        assert [] + x == x;
        data[q] := Or(data[q], Shr(x, r));
        data[q + 1] := Shl(x, 8 - r);
        Trim(was, data[..], at, x, n);
      } else {
        PutOr(was, was, at, [], q, r, x);
        assert [] + x[..8 - r] == x[..8 - r] && x[..8 - r][..n] == x[..n];
        data[q] := Or(data[q], Shr(x, r));
        Trim(was, data[..], at, x[..8 - r], n);
      }
    }

    /** Takes the last bits away again. */
    method RewindBits(bits: nat) returns (ok: bool)
      requires Valid()
      modifies this, data
      ensures Valid() && ok == (bits <= old(bitLen))
      ensures Bits() == if ok then old(Bits())[..old(bitLen) - bits] else old(Bits())
    {
      hide BitAt, Window, ClearFrom, Written, And, HighMask;
      if bits == 0 {
        assert Bits()[..bitLen] == Bits();
        return true;
      }
      if bits > bitLen { return false; }
      var length := bitLen - bits;
      var p, r, left := length / 8, length % 8, bits;
      ghost var was := data[..];
      ClearedFrom(was, bitLen);
      if r != 0 {
        var shift := 8 - r;
        ClearMask(was, was, length, bitLen, p, r);
        data[p] := And(data[p], HighMask(r));
        left := if left > shift then left - shift else 0;
        p := p + 1;
      } else {
        ClearNothing(was, length, bitLen);
      }
      ghost var start := p;
      for i := 0 to CeilDiv8(left)
        invariant p == start && bitLen == old(bitLen) && ClearedBetween(was, data[..], length, 8 * (p + i), bitLen)
      {
        ClearByte(was, data[..], length, bitLen, p + i);
        data[p + i] := ZERO;
      }
      AllCleared(was, data[..], length, 8 * (p + CeilDiv8(left)), bitLen);
      bitLen := length;
      return true;
    }

    /** Stores raw bits in front of those that are there. */
    method PrependRaw(value: seq<Octet>, bits: nat) returns (ok: bool)
      requires Valid()
      modifies this, data
      ensures Valid() && ok == (bits == 0 || old(bitLen) + bits <= MAX_BIT_LEN)
      ensures Bits() == if ok then RawBits(value, bits) + old(Bits()) else old(Bits())
      ensures ok && LengthSurvives(|value|, bits) ==> Bits() == Intended(value, bits) + old(Bits())
    {
      hide BitAt, Window, ClearFrom, Written, Intended;
      if LengthSurvives(|value|, bits) { RawBitsMeaning(value, bits); }
      if bits == 0 {
        assert RawBits(value, 0) + Bits() == Bits();
        return true;
      }
      if bitLen + bits > MAX_BIT_LEN { return false; }
      var b := new CellDataBuilder();
      var stored := b.StoreRaw(value, bits);
      assert [] + RawBits(value, bits) == RawBits(value, bits);
      RawBitsMeaning(data[..], bitLen);
      stored := b.StoreRaw(data[..], bitLen);
      ghost var joined := b.Bits();
      assert joined == RawBits(value, bits) + old(Bits());
      forall i | 0 <= i < BUFFER_BYTES { data[i] := b.data[i]; }
      assert data[..] == b.data[..] && b.Valid() && b.Bits() == joined;
      bitLen := b.bitLen;
      return true;
    }
  }

  lemma {:induction false} Zeros(data: seq<Octet>, length: nat, n: nat)
    requires ClearFrom(data, length) && length + n <= 8 * |data|
    ensures ClearFrom(data, length + n) && Window(data, 0, length + n) == Window(data, 0, length) + Repeat(false, n)
  {
    hide BitAt, Window, ClearFrom, Written;
    NothingWritten(data, length, length + n);
    Appended(data, data, length, length + n, []);
    assert Window(data, 0, length) + Repeat(false, n) + [] == Window(data, 0, length) + Repeat(false, n);
  }

  // ---------------------------------------------------------------- numbers

  lemma {:induction false} NoUintBits(value: nat)
    ensures UintBits(value, 0) == []
  {
  }

  /** The last bits of a number are those of the number in fewer bits. */
  lemma {:induction false} UintSuffix(value: nat, n: nat, m: nat)
    requires m <= n
    ensures UintBits(value, n)[n - m..] == UintBits(value, m)
  {
    if m > 0 {
      UintSuffix(value / 2, n - 1, m - 1);
      assert UintBits(value, n)[n - m..] == UintBits(value / 2, n - 1)[n - m..] + [value % 2 == 1];
    }
  }

  lemma {:induction false} UintOfSmall(value: nat, n: nat, m: nat)
    requires m <= n && value < Pow2(m)
    ensures UintBits(value, n) == Repeat(false, n - m) + UintBits(value, m)
  {
    if m == 0 {
      ZeroBits(n);
    } else {
      UintOfSmall(value / 2, n - 1, m - 1);
    }
  }

  lemma {:induction false} ZeroBits(n: nat)
    ensures UintBits(0, n) == Repeat(false, n)
  {
    if n > 0 { ZeroBits(n - 1); }
  }

  lemma {:induction false} UintPadded(value: nat, n: nat, bits: nat)
    requires value < Pow2(64) && n == (if bits >= 64 then 64 else bits)
    ensures UintBits(value, bits) == Repeat(false, bits - n) + UintBits(value, n)
  {
    hide UintBits, Pow2;
    if bits >= 64 { UintOfSmall(value, bits, 64); } else { assert Repeat(false, 0) + UintBits(value, n) == UintBits(value, n); }
  }

  lemma {:induction false} SmallPadded(value: byte, n: nat, bits: nat)
    requires n == if bits >= 8 then 8 else bits
    ensures UintBits(value, bits) == Repeat(false, bits - n) + UintBits(value, n)
  {
    hide UintBits;
    Pow2Of8();
    if bits >= 8 { UintOfSmall(value, bits, 8); } else { assert Repeat(false, 0) + UintBits(value, n) == UintBits(value, n); }
  }

  /** Appending the low bits of a number behind zeros appends the number in more bits. */
  lemma {:induction false} NumberAppended(was: seq<Octet>, now: seq<Octet>, length: nat, at: nat, value: nat, n: nat, bits: nat)
    requires ClearFrom(was, length) && n <= bits && at == length + (bits - n) && at + n <= 8 * |was| == 8 * |now|
    requires Written(was, now, at, UintBits(value, n))
    requires UintBits(value, bits) == Repeat(false, bits - n) + UintBits(value, n)
    ensures ClearFrom(now, length + bits)
    ensures Window(now, 0, length + bits) == Window(was, 0, length) + UintBits(value, bits)
  {
    hide BitAt, Window, ClearFrom, Written, UintBits;
    Appended(was, now, length, at, UintBits(value, n));
    assert Window(was, 0, length) + Repeat(false, bits - n) + UintBits(value, n) ==
      Window(was, 0, length) + (Repeat(false, bits - n) + UintBits(value, n));
  }

  /** The high bits of a word, moved to the end of a byte. */
  lemma {:induction false} HeadOfWord(word: seq<bool>, r: nat)
    requires |word| >= 8 && 0 < r < 8
    ensures Shr(word, |word| - (8 - r))[|word| - 8..] == Shr(word[..8], r)
  {
  }

  lemma {:induction false} ShiftedTail(word: seq<bool>, shift: nat, n: nat, count: nat)
    requires shift < n <= |word| && |word| % 8 == 0 && shift <= 8 && count == CeilDiv8(n - shift)
    requires forall i :: n <= i < |word| ==> !word[i]
    ensures 8 * count <= |word|
    ensures var all := word[..shift] + Shl(word, shift)[..8 * count];
      all[..n] == word[..n] && forall i :: n <= i < |all| ==> !all[i]
  {
    hide Shl;
    var tail := Shl(word, shift);
    var all := word[..shift] + tail[..8 * count];
    forall i | 0 <= i < |all|
      ensures all[i] == (i < |word| && word[i])
    {
      if i >= shift { assert all[i] == tail[i - shift]; }
    }
  }

  // ---------------------------------------------------------------- rewinding

  /** Bit `k` while bits are cleared: gone from `length` up to `done`, and from `end` on there were none. */
  predicate ClearedAt(was: seq<Octet>, now: seq<Octet>, length: nat, done: nat, end: nat, k: nat)
    requires k < 8 * |was| && |now| == |was|
  {
    if k < length then BitAt(now, k) == BitAt(was, k) else (k < done || k >= end) ==> !BitAt(now, k)
  }

  ghost predicate ClearedBetween(was: seq<Octet>, now: seq<Octet>, length: nat, done: nat, end: nat) {
    |now| == |was| && forall k :: 0 <= k < 8 * |was| ==> ClearedAt(was, now, length, done, end, k)
  }

  lemma {:induction false} ClearedFrom(data: seq<Octet>, end: nat)
    requires ClearFrom(data, end)
    ensures ClearedBetween(data, data, end, end, end)
  {
    hide BitAt;
    forall k | 0 <= k < 8 * |data|
      ensures ClearedAt(data, data, end, end, end, k)
    {
      if k >= end { ClearBit(data, end, k); }
    }
  }

  lemma {:induction false} ClearNothing(data: seq<Octet>, length: nat, end: nat)
    requires ClearedBetween(data, data, end, end, end) && length <= end
    ensures ClearedBetween(data, data, length, length, end)
  {
    hide BitAt;
    forall k | 0 <= k < 8 * |data|
      ensures ClearedAt(data, data, length, length, end, k)
    {
      assert ClearedAt(data, data, end, end, end, k);
    }
  }

  lemma {:induction false} ClearMask(was: seq<Octet>, now: seq<Octet>, length: nat, end: nat, p: nat, r: nat)
    requires was == now && ClearedBetween(was, now, end, end, end) && length == 8 * p + r && r < 8 && length < end && p < |was|
    ensures ClearedBetween(was, now[p := And(now[p], HighMask(r))], length, 8 * (p + 1), end)
  {
    hide BitAt, HighMask;
    var y: Octet := And(now[p], HighMask(r));
    var result, done := now[p := y], 8 * (p + 1);
    forall k | 0 <= k < 8 * |was|
      ensures ClearedAt(was, result, length, done, end, k)
    {
      assert ClearedAt(was, now, end, end, end, k);
      PutBits(now, p, y, k);
      if k / 8 == p {
        BitOf(now, p, k % 8);
        assert k == 8 * p + k % 8;
      }
    }
  }

  lemma {:induction false} ClearByte(was: seq<Octet>, now: seq<Octet>, length: nat, end: nat, p: nat)
    requires ClearedBetween(was, now, length, 8 * p, end) && length <= 8 * p && p < |was|
    ensures ClearedBetween(was, now[p := ZERO], length, 8 * (p + 1), end)
  {
    hide BitAt;
    var result, done := now[p := ZERO], 8 * (p + 1);
    forall k | 0 <= k < 8 * |was|
      ensures ClearedAt(was, result, length, done, end, k)
    {
      assert ClearedAt(was, now, length, 8 * p, end, k);
      PutBits(now, p, ZERO, k);
    }
  }

  lemma {:induction false} AllCleared(was: seq<Octet>, now: seq<Octet>, length: nat, done: nat, end: nat)
    requires ClearedBetween(was, now, length, done, end) && end <= done && length <= end <= 8 * |was|
    ensures ClearFrom(now, length) && Window(now, 0, length) == Window(was, 0, end)[..length]
  {
    hide BitAt;
    forall k | 0 <= k < 8 * |was|
      ensures WrittenAt(now, now, length, [], k)
    {
      assert ClearedAt(was, now, length, done, end, k);
    }
    var s, t := Window(now, 0, length), Window(was, 0, end)[..length];
    forall k | 0 <= k < length
      ensures s[k] == t[k]
    {
      assert ClearedAt(was, now, length, done, end, k);
    }
  }

  lemma {:induction false} ZeroBuffer(data: seq<Octet>)
    requires forall i :: 0 <= i < |data| ==> data[i] == ZERO
    ensures ClearFrom(data, 0) && Window(data, 0, 0) == []
  {
  }

  lemma {:induction false} EmptyWindow(value: seq<Octet>)
    ensures Window(value, 0, 0) == []
  {
  }

  lemma {:induction false} CutWindow(value: seq<Octet>, n: nat, m: nat)
    requires m <= n <= 8 * |value|
    ensures Window(value, 0, n)[..m] == Window(value, 0, m)
  {
    hide BitAt;
  }

  /** One step of a shifted store: the first bits go to this byte, the others to the next. */
  lemma {:induction false} SpreadByte(was: seq<Octet>, now: seq<Octet>, at: nat, v: seq<bool>, p: nat, r: nat, x: Octet)
    requires |now| == |was| && Written(was, now, at, v) && at + |v| == 8 * p + r && 0 < r < 8 && p + 1 < |was|
    ensures Written(was, now[p := Or(now[p], Shr(x, r))][p + 1 := Shl(x, 8 - r)], at, v + x)
  {
    hide BitAt, Written, Or, Shr, Shl;
    PutOr(was, now, at, v, p, r, x);
    var mid, y: Octet := now[p := Or(now[p], Shr(x, r))], Shl(x, 8 - r);
    PutByte(was, mid, at, v + x[..8 - r], p + 1, y);
    var all := v + x[..8 - r] + y;
    Trim(was, mid[p + 1 := y], at, all, |v| + 8);
    assert all[..|v| + 8] == v + x;
  }
}
