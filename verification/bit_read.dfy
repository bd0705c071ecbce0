/** Reading numbers, raw bytes and comparisons from windows of bits at any alignment. */
module BitRead {
  import opened Cells
  import opened Labels
  import opened BitOrder
  import opened BitBytes
  import opened BitScan

  datatype CellRead<+T> = Read(value: T) | Underflow

  /** Leading zeros do not change the value. */
  lemma {:induction false} PaddedValue(k: nat, s: seq<bool>)
    ensures BitsUint(Repeat(false, k) + s) == BitsUint(s)
  {
    if s == [] {
      ZeroValue(k);
      assert Repeat(false, k) + s == Repeat(false, k);
    } else {
      PaddedValue(k, s[..|s| - 1]);
      assert (Repeat(false, k) + s)[..k + |s| - 1] == Repeat(false, k) + s[..|s| - 1];
    }
  }

  lemma {:induction false} ZeroValue(k: nat)
    ensures BitsUint(Repeat(false, k)) == 0
  {
    if k > 0 {
      ZeroValue(k - 1);
      assert Repeat(false, k)[..k - 1] == Repeat(false, k - 1);
    }
  }

  /** A window inside one byte. */
  lemma {:induction false} InOneByte(data: seq<Octet>, q: nat, r: nat, n: nat)
    requires q < |data| && r + n <= 8
    ensures Window(data, 8 * q + r, n) == data[q][r..r + n]
  {
    hide BitAt;
    var w := Window(data, 8 * q + r, n);
    forall i | 0 <= i < n
      ensures w[i] == data[q][r + i]
    {
      BitOf(data, q, r + i);
      assert 8 * q + (r + i) == 8 * q + r + i;
    }
  }

  lemma {:induction false} WindowSplit(data: seq<Octet>, start: nat, n: nat, m: nat)
    requires start + n + m <= 8 * |data|
    ensures Window(data, start, n + m) == Window(data, start, n) + Window(data, start + n, m)
  {
    hide BitAt;
    var s, t := Window(data, start, n + m), Window(data, start, n) + Window(data, start + n, m);
    forall i | 0 <= i < n + m
      ensures s[i] == t[i]
    {
      if i >= n { assert start + n + (i - n) == start + i; }
    }
  }

  // ---------------------------------------------------------------- small numbers

  /** Up to eight bits as a number; bytes that are not there give an error. */
  method GetSmallUint(data: seq<Octet>, start: nat, end: nat, offset: nat, bits: nat) returns (r: CellRead<nat>)
    ensures bits == 0 ==> r == Read(0)
    ensures bits > 8 || (bits > 0 && start + offset + bits > end) ==> r == Underflow
    ensures 0 < bits <= 8 && start + offset + bits <= end ==>
      r == if start + offset + bits <= 8 * |data| then Read(BitsUint(Window(data, start + offset, bits))) else Underflow
  {
    hide BitAt, Window, BitsUint, Shr, And;
    if bits == 0 { return Read(0); }
    if bits > 8 || start + offset + bits > end { return Underflow; }
    var index := start + offset;
    var shift, q := index % 8, index / 8;
    if q >= |data| { return Underflow; }
    var byte := data[q];
    if shift == 0 {
      InOneByte(data, q, 0, bits);
      PaddedValue(8 - bits, byte[..bits]);
      assert Shr(byte, 8 - bits) == Repeat(false, 8 - bits) + byte[..bits];
      return Read(BitsUint(Shr(byte, 8 - bits)));
    }
    if bits <= 8 - shift {
      InOneByte(data, q, shift, bits);
      var value := And(Shr(byte, 8 - shift - bits), LowMask(8 - bits));
      PaddedValue(8 - bits, byte[shift..shift + bits]);
      assert value == Repeat(false, 8 - bits) + byte[shift..shift + bits];
      return Read(BitsUint(value));
    }
    if q + 1 >= |data| { return Underflow; }
    var both := Shr(byte + data[q + 1], 8 - shift)[8..];
    AcrossBytes(data, q, shift, bits);
    PaddedValue(8 - bits, both[..bits]);
    assert both == byte[shift..] + data[q + 1][..shift];
    assert both[..bits] == byte[shift..] + data[q + 1][..bits - (8 - shift)];
    assert Shr(both, 8 - bits) == Repeat(false, 8 - bits) + both[..bits];
    r := Read(BitsUint(Shr(both, 8 - bits)));
  }

  /** A window that ends in the byte behind its first one. */
  lemma {:induction false} AcrossBytes(data: seq<Octet>, q: nat, r: nat, n: nat)
    requires q + 1 < |data| && r < 8 && 8 - r < n <= 8
    ensures Window(data, 8 * q + r, n) == data[q][r..] + data[q + 1][..n - (8 - r)]
  {
    hide BitAt, Window;
    var m := n - (8 - r);
    InOneByte(data, q, r, 8 - r);
    InOneByte(data, q + 1, 0, m);
    WindowSplit(data, 8 * q + r, 8 - r, m);
    assert 8 * q + r + (8 - r) == 8 * (q + 1) + 0;
    assert data[q][r..] == data[q][r..r + (8 - r)] && data[q + 1][..m] == data[q + 1][0..0 + m];
  }

  // ---------------------------------------------------------------- numbers up to 64 bits

  /** Consecutive bytes, zero bytes behind them, as one 64-bit word. */
  function Word64(data: seq<Octet>, q: nat, count: nat): (w: seq<bool>)
    requires q + count <= |data| && count <= 8
    ensures |w| == 64
  {
    Window(data, 8 * q, 8 * count) + Repeat(false, 64 - 8 * count)
  }

  /** The first byte in front of the bytes behind it, moved to the end of a word. */
  function JoinWord(data: seq<Octet>, q: nat, r: nat, rest: nat): (w: seq<bool>)
    requires q + 1 + CeilDiv8(rest) <= |data| && CeilDiv8(rest) <= 8 && rest <= 64 && r < 8
    ensures |w| == 64
  {
    Or(Shr(Word64(data, q + 1, CeilDiv8(rest)), 64 - rest), Shl(Repeat(false, 56) + And(data[q], LowMask(r)), rest))
  }

  /** The value of the window, put together from its first byte and the bytes behind it. */
  lemma {:induction false} JoinedWord(data: seq<Octet>, q: nat, r: nat, bits: nat)
    requires r < 8 && 8 < r + bits && bits <= 64 && 8 * q + r + bits <= 8 * |data|
    ensures var rest := bits - (8 - r);
      && q + 1 + CeilDiv8(rest) <= |data| && CeilDiv8(rest) <= 8 && rest <= 64
      && JoinWord(data, q, r, rest) == Repeat(false, 64 - bits) + Window(data, 8 * q + r, bits)
  {
    hide BitAt;
    var rest := bits - (8 - r);
    var w := Word64(data, q + 1, CeilDiv8(rest));
    InOneByte(data, q, r, 8 - r);
    WindowSplit(data, 8 * q + r, 8 - r, rest);
    assert w[..rest] == Window(data, 8 * (q + 1), rest);
    assert Shr(w, 64 - rest) == Repeat(false, 64 - rest) + w[..rest];
    HighPart(data[q], r, rest);
  }

  lemma {:induction false} HighPart(first: Octet, r: nat, rest: nat)
    requires r < 8 && rest <= 56 + r
    ensures Shl(Repeat(false, 56) + And(first, LowMask(r)), rest) ==
      Repeat(false, 56 + r - rest) + first[r..] + Repeat(false, rest)
  {
  }

  method GetUint(data: seq<Octet>, start: nat, end: nat, offset: nat, bits: nat) returns (r: CellRead<nat>)
    ensures bits == 0 ==> r == Read(0)
    ensures bits > 0 && (bits > 64 || start + offset + bits > end || end > 8 * |data|) ==> r == Underflow
    ensures 0 < bits <= 64 && start + offset + bits <= end <= 8 * |data| ==>
      r == Read(BitsUint(Window(data, start + offset, bits)))
  {
    hide BitAt, Window, BitsUint, JoinWord;
    if bits == 0 { return Read(0); }
    if bits > 64 || start + offset + bits > end { return Underflow; }
    if CeilDiv8(end) > |data| { return Underflow; }
    var index := start + offset;
    var shift, q := index % 8, index / 8;
    if shift + bits <= 8 {
      var word := FirstByteOnly(data, q, shift, bits);
      PaddedValue(8 - bits, Window(data, 8 * q + shift, bits));
      return Read(BitsUint(word));
    }
    JoinedWord(data, q, shift, bits);
    PaddedValue(64 - bits, Window(data, 8 * q + shift, bits));
    r := Read(BitsUint(JoinWord(data, q, shift, bits - (8 - shift))));
  }

  /** All bits are in the first byte. */
  method FirstByteOnly(data: seq<Octet>, q: nat, shift: nat, bits: nat) returns (word: Octet)
    requires q < |data| && bits > 0 && shift + bits <= 8
    ensures word == Repeat(false, 8 - bits) + Window(data, 8 * q + shift, bits)
  {
    hide BitAt, Window, Shr, And;
    var first: Octet := And(data[q], LowMask(shift));
    var rightShift := (8 - (bits + shift) % 8) % 8;
    InOneByte(data, q, shift, bits);
    word := Shr(first, rightShift);
    assert word == Repeat(false, 8 - bits) + data[q][shift..shift + bits];
  }

  // ---------------------------------------------------------------- raw bytes

  predicate ClearTail(x: Octet, n: nat) { forall j :: n <= j < 8 ==> !x[j] }

  /** Copies the next `bits` bits to the front of `target`, clearing the rest of the last byte. */
  method GetRaw(data: seq<Octet>, start: nat, end: nat, target: array<Octet>, bits: nat) returns (r: CellRead<nat>)
    requires end <= 8 * |data|
    modifies target
    ensures r == if bits == 0 then Read(0)
      else if start + bits > end || CeilDiv8(bits) > target.Length then Underflow
      else Read(CeilDiv8(bits))
    ensures r.Read? && bits > 0 ==>
      && (forall i :: 0 <= i < CeilDiv8(bits) ==> AllSpelled(data, start, target[i], bits, 8 * i))
      && (bits % 8 != 0 ==> ClearTail(target[CeilDiv8(bits) - 1], bits % 8))
    ensures forall i :: (if r.Read? then CeilDiv8(bits) else 0) <= i < target.Length ==> target[i] == old(target[i])
  {
    hide BitAt, And, AllSpelled, HighMask;
    if bits == 0 { return Read(0); }
    if start + bits > end { return Underflow; }
    var n := CeilDiv8(bits);
    if n > target.Length { return Underflow; }
    CopyRaw(data, start, target, bits);
    if bits % 8 != 0 {
      MaskedSpells(data, start, target[n - 1], bits, n - 1);
      assert 8 - (8 - bits % 8) % 8 == bits % 8;
      target[n - 1] := And(target[n - 1], HighMask(bits % 8));
    }
    r := Read(n);
  }

  /** Copies whole bytes, each joined from two when the window does not start with a byte. */
  method CopyRaw(data: seq<Octet>, start: nat, target: array<Octet>, bits: nat)
    requires bits > 0 && start + bits <= 8 * |data| && CeilDiv8(bits) <= target.Length
    modifies target
    ensures forall i :: 0 <= i < CeilDiv8(bits) ==> AllSpelled(data, start, target[i], bits, 8 * i)
    ensures forall i :: CeilDiv8(bits) <= i < target.Length ==> target[i] == old(target[i])
  {
    hide BitAt, Shl, Shr, Or, AllSpelled;
    var n, shift, q := CeilDiv8(bits), start % 8, start / 8;
    TouchedBytes(data, start, bits);
    var whole := if shift == 0 then n else CeilDiv8(bits + shift) - 1;
    for i := 0 to whole
      invariant forall k :: 0 <= k < i ==> AllSpelled(data, start, target[k], bits, 8 * k)
      invariant forall k :: i <= k < target.Length ==> target[k] == old(target[k])
    {
      if shift == 0 {
        ByteSpells(data, start, bits, i);
        target[i] := data[q + i];
      } else {
        JoinedSpells(data, start, bits, i);
        target[i] := Or(Shl(data[q + i], shift), Shr(data[q + i + 1], 8 - shift));
      }
    }
    if whole < n {
      RestSpells(data, start, bits, whole);
      target[whole] := Shl(data[q + whole], shift);
    }
  }

  /** The same, and the window then starts behind the bits that were read, or where it was. */
  method LoadRaw(data: seq<Octet>, start: nat, end: nat, target: array<Octet>, bits: nat) returns (r: CellRead<nat>, next: nat)
    requires start <= end <= 8 * |data|
    modifies target
    ensures r.Read? <==> start + bits <= end && CeilDiv8(bits) <= target.Length
    ensures r.Read? ==> r.value == CeilDiv8(bits) && next == start + bits && start + bits <= 8 * |data|
    ensures r.Read? ==> forall k :: 0 <= k < bits ==> target[k / 8][k % 8] == Window(data, start, bits)[k]
    ensures r.Read? && bits % 8 != 0 ==> ClearTail(target[CeilDiv8(bits) - 1], bits % 8)
    ensures forall i :: (if r.Read? then CeilDiv8(bits) else 0) <= i < target.Length ==> target[i] == old(target[i])
    ensures r.Underflow? ==> next == start
  {
    hide BitAt;
    r := GetRaw(data, start, end, target, bits);
    next := if r.Read? then start + bits else start;
    if r.Read? {
      forall k | 0 <= k < bits
        ensures target[k / 8][k % 8] == Window(data, start, bits)[k]
      {
        assert AllSpelled(data, start, target[k / 8], bits, 8 * (k / 8));
        assert Spelled(data, start, target[k / 8], bits, 8 * (k / 8), k % 8);
      }
    }
  }

  lemma {:induction false} ByteSpells(data: seq<Octet>, start: nat, n: nat, i: nat)
    requires start + n <= 8 * |data| && start % 8 == 0 && start / 8 + i < |data|
    ensures AllSpelled(data, start, data[start / 8 + i], n, 8 * i)
  {
    hide BitAt;
    var q := start / 8 + i;
    forall j | 0 <= j < 8
      ensures Spelled(data, start, data[q], n, 8 * i, j)
    {
      BitOf(data, q, j);
      assert 8 * q + j == start + 8 * i + j;
    }
  }

  // ---------------------------------------------------------------- comparison

  /** Compares two windows, 32 bits at a time; windows of one cell at one offset differ in length only. */
  method LexCompare(a: seq<Octet>, sa: nat, ea: nat, b: seq<Octet>, sb: nat, eb: nat, sameCell: bool)
    returns (r: CellRead<Ordering>)
    requires sa <= ea <= 8 * |a| && sb <= eb <= 8 * |b| && (sameCell ==> a == b)
    ensures r == Read(LexCmp(Window(a, sa, ea - sa), Window(b, sb, eb - sb)))
  {
    hide BitAt, Window, BitsUint, LexCmp;
    var la, lb := ea - sa, eb - sb;
    if sameCell && sa == sb {
      SameStart(a, sa, la, lb);
      return Read(Compare(la, lb));
    }
    var bits := Min(la, lb);
    var rem := bits % 32;
    var offset := 0;
    NothingEqual(a, sa, b, sb);
    while offset < bits - rem
      invariant 0 <= offset <= bits - rem && offset % 32 == 0 && Window(a, sa, offset) == Window(b, sb, offset)
    {
      var x := GetUint(a, sa, ea, offset, 32);
      var y := GetUint(b, sb, eb, offset, 32);
      PieceDecides(a, sa, la, b, sb, lb, offset, 32);
      if x.value != y.value { return Read(Compare(x.value, y.value)); }
      offset := offset + 32;
    }
    if rem > 0 {
      var x := GetUint(a, sa, ea, bits - rem, rem);
      var y := GetUint(b, sb, eb, bits - rem, rem);
      PieceDecides(a, sa, la, b, sb, lb, offset, rem);
      if x.value != y.value { return Read(Compare(x.value, y.value)); }
    }
    EqualPrefix(a, sa, la, b, sb, lb, bits);
    r := Read(Compare(la, lb));
  }

  lemma {:induction false} NothingEqual(a: seq<Octet>, sa: nat, b: seq<Octet>, sb: nat)
    requires sa <= 8 * |a| && sb <= 8 * |b|
    ensures Window(a, sa, 0) == Window(b, sb, 0)
  {
  }

  lemma {:induction false} SameStart(a: seq<Octet>, sa: nat, la: nat, lb: nat)
    requires sa + la <= 8 * |a| && sa + lb <= 8 * |a|
    ensures LexCmp(Window(a, sa, la), Window(a, sa, lb)) == Compare(la, lb)
  {
    hide BitAt, LexCmp;
    LexPrefix(Window(a, sa, la), Window(a, sa, lb));
  }

  /** The next piece either differs, and its value decides, or extends the equal beginning. */
  lemma {:induction false} PieceDecides(a: seq<Octet>, sa: nat, la: nat, b: seq<Octet>, sb: nat, lb: nat, offset: nat, n: nat)
    requires sa + la <= 8 * |a| && sb + lb <= 8 * |b| && offset + n <= la && offset + n <= lb
    requires Window(a, sa, offset) == Window(b, sb, offset)
    ensures var x, y := BitsUint(Window(a, sa + offset, n)), BitsUint(Window(b, sb + offset, n));
      && (x == y ==> Window(a, sa, offset + n) == Window(b, sb, offset + n))
      && (x != y ==> LexCmp(Window(a, sa, la), Window(b, sb, lb)) == Compare(x, y))
  {
    hide BitAt, Window, BitsUint, LexCmp;
    var common, x, y := Window(a, sa, offset), Window(a, sa + offset, n), Window(b, sb + offset, n);
    WindowSplit(a, sa, offset, n);
    WindowSplit(b, sb, offset, n);
    WindowSplit(a, sa, offset + n, la - offset - n);
    WindowSplit(b, sb, offset + n, lb - offset - n);
    LexIsNumeric(x, y);
    var restA, restB := Window(a, sa + (offset + n), la - offset - n), Window(b, sb + (offset + n), lb - offset - n);
    if x != y {
      LexFirstDiffers(x, y, restA, restB);
      LexAfterEqual(common, x + restA, y + restB);
      assert common + x + restA == common + (x + restA) && common + y + restB == common + (y + restB);
    }
  }

  lemma {:induction false} EqualPrefix(a: seq<Octet>, sa: nat, la: nat, b: seq<Octet>, sb: nat, lb: nat, bits: nat)
    requires sa + la <= 8 * |a| && sb + lb <= 8 * |b| && bits == Min(la, lb)
    requires Window(a, sa, bits) == Window(b, sb, bits)
    ensures LexCmp(Window(a, sa, la), Window(b, sb, lb)) == Compare(la, lb)
  {
    hide BitAt, LexCmp, Window;
    WindowSplit(a, sa, bits, la - bits);
    WindowSplit(b, sb, bits, lb - bits);
    LexPrefix(Window(a, sa, la), Window(b, sb, lb));
  }
}
