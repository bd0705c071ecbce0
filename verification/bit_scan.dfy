/** Scanning and comparing windows of bits at any alignment. */
module BitScan {
  import opened Cells
  import opened Labels
  import opened BitBytes

  function Min(a: nat, b: nat): nat { if a < b then a else b }

  function CeilDiv8(n: nat): nat { (n + 7) / 8 }

  // ---------------------------------------------------------------- longest common prefix

  /** Bit `i` of two windows agrees. */
  predicate SameAt(a: seq<Octet>, sa: nat, b: seq<Octet>, sb: nat, i: nat)
    requires sa + i < 8 * |a| && sb + i < 8 * |b|
  {
    BitAt(a, sa + i) == BitAt(b, sb + i)
  }

  /** The first `k` bits of two windows agree. */
  ghost predicate AgreeUpTo(a: seq<Octet>, sa: nat, b: seq<Octet>, sb: nat, k: nat) {
    && sa + k <= 8 * |a| && sb + k <= 8 * |b|
    && forall i :: 0 <= i < k ==> SameAt(a, sa, b, sb, i)
  }

  lemma {:induction false} PrefixIs(x: seq<bool>, y: seq<bool>, k: nat)
    requires |x| == |y| && k <= |x| && x[..k] == y[..k] && (k < |x| ==> x[k] != y[k])
    ensures CommonPrefix(x, y) == k
  {
    var l := CommonPrefix(x, y);
    forall i | 0 <= i < k
      ensures x[i] == y[i]
    {
      assert x[..k][i] == y[..k][i];
    }
    forall i | 0 <= i < l
      ensures x[i] == y[i]
    {
      assert x[..l][i] == y[..l][i];
    }
  }

  /** Agreement up to a difference, or up to the end, is the common prefix. */
  lemma {:induction false} PrefixFound(a: seq<Octet>, sa: nat, b: seq<Octet>, sb: nat, n: nat, k: nat)
    requires sa + n <= 8 * |a| && sb + n <= 8 * |b|
    requires AgreeUpTo(a, sa, b, sb, Min(k, n))
    requires k < n ==> !SameAt(a, sa, b, sb, k)
    ensures CommonPrefix(Window(a, sa, n), Window(b, sb, n)) == Min(k, n)
  {
    hide BitAt;
    var m := Min(k, n);
    var x, y := Window(a, sa, n), Window(b, sb, n);
    forall i | 0 <= i < m
      ensures x[i] == y[i]
    {
      assert SameAt(a, sa, b, sb, i);
    }
    assert x[..m] == y[..m];
    PrefixIs(x, y, m);
  }

  /** Bit `j` of two bytes is bit `at + j` of the two windows. */
  ghost predicate Spelled(a: seq<Octet>, sa: nat, x: Octet, n: nat, at: nat, j: nat)
    requires sa + n <= 8 * |a| && j < 8
  {
    at + j < n ==> x[j] == BitAt(a, sa + at + j)
  }

  ghost predicate AllSpelled(a: seq<Octet>, sa: nat, x: Octet, n: nat, at: nat)
    requires sa + n <= 8 * |a|
  {
    forall j :: 0 <= j < 8 ==> Spelled(a, sa, x, n, at, j)
  }

  /** What comparing eight more bits tells; bits beyond the windows do not matter. */
  lemma {:induction false} CompareByte(a: seq<Octet>, sa: nat, b: seq<Octet>, sb: nat, n: nat, at: nat,
                                       x: Octet, y: Octet)
    requires sa + n <= 8 * |a| && sb + n <= 8 * |b|
    requires AgreeUpTo(a, sa, b, sb, Min(at, n)) && AllSpelled(a, sa, x, n, at) && AllSpelled(b, sb, y, n, at)
    ensures var c := LeadingZeros(Xor(x, y));
      && AgreeUpTo(a, sa, b, sb, Min(at + c, n))
      && (c < 8 || at + c >= n ==> CommonPrefix(Window(a, sa, n), Window(b, sb, n)) == Min(at + c, n))
  {
    hide BitAt;
    var z := Xor(x, y);
    var c := LeadingZeros(z);
    forall i | 0 <= i < Min(at + c, n)
      ensures SameAt(a, sa, b, sb, i)
    {
      if i >= at {
        assert !z[i - at];
        assert Spelled(a, sa, x, n, at, i - at) && Spelled(b, sb, y, n, at, i - at);
        assert sa + at + (i - at) == sa + i && sb + at + (i - at) == sb + i;
      } else {
        assert SameAt(a, sa, b, sb, i);
      }
    }
    if c < 8 || at + c >= n {
      if at + c < n {
        assert z[c];
        assert Spelled(a, sa, x, n, at, c) && Spelled(b, sb, y, n, at, c);
        assert sa + at + c == sa + (at + c) && sb + at + c == sb + (at + c);
      }
      PrefixFound(a, sa, b, sb, n, at + c);
    }
  }

  /** The bytes that an unaligned window of `n` bits touches. */
  lemma {:induction false} TouchedBytes(data: seq<Octet>, start: nat, n: nat)
    requires start + n <= 8 * |data|
    ensures start / 8 + CeilDiv8(start % 8 + n) <= |data|
  {
  }

  /** Joining the rest of one byte with the front of the next spells eight bits of the window. */
  lemma {:induction false} JoinedSpells(data: seq<Octet>, start: nat, n: nat, i: nat)
    requires start + n <= 8 * |data| && start / 8 + i + 1 < |data|
    ensures var q, r := start / 8 + i, start % 8;
      AllSpelled(data, start, Or(Shl(data[q], r), Shr(data[q + 1], 8 - r)), n, 8 * i)
  {
    hide BitAt, Shl, Shr, Or;
    var q, r := start / 8 + i, start % 8;
    var x: Octet := Or(Shl(data[q], r), Shr(data[q + 1], 8 - r));
    forall j | 0 <= j < 8
      ensures Spelled(data, start, x, n, 8 * i, j)
    {
      StraddleJoined(data, q, r, j);
      assert 8 * q + r + j == start + 8 * i + j;
    }
  }

  /** What is left of the last byte spells all that is left of the window. */
  lemma {:induction false} RestSpells(data: seq<Octet>, start: nat, n: nat, i: nat)
    requires start + n <= 8 * |data| && start / 8 + i < |data| && 8 * (i + 1) >= start % 8 + n
    ensures AllSpelled(data, start, Shl(data[start / 8 + i], start % 8), n, 8 * i)
  {
    hide BitAt, Shl;
    var q, r := start / 8 + i, start % 8;
    forall j | 0 <= j < 8
      ensures Spelled(data, start, Shl(data[q], r), n, 8 * i, j)
    {
      Straddle(data, q, r, j);
      assert 8 * q + r + j == start + 8 * i + j;
    }
  }

  /** Masking off what lies beyond the window. */
  lemma {:induction false} MaskedSpells(data: seq<Octet>, start: nat, x: Octet, n: nat, i: nat)
    requires start + n <= 8 * |data| && AllSpelled(data, start, x, n, 8 * i) && 8 * (i + 1) >= n
    ensures AllSpelled(data, start, And(x, HighMask(8 - (8 - n % 8) % 8)), n, 8 * i)
  {
    hide BitAt, Shl;
    var y: Octet := And(x, HighMask(8 - (8 - n % 8) % 8));
    forall j | 0 <= j < 8
      ensures Spelled(data, start, y, n, 8 * i, j)
    {
      assert Spelled(data, start, x, n, 8 * i, j);
    }
  }

  lemma {:induction false} NothingCompared(a: seq<Octet>, sa: nat, b: seq<Octet>, sb: nat)
    requires sa <= 8 * |a| && sb <= 8 * |b|
    ensures AgreeUpTo(a, sa, b, sb, 0)
  {
  }

  /** The last byte, with or without bits of the byte behind it, spells the rest of the window. */
  lemma {:induction false} LastJoin(data: seq<Octet>, start: nat, n: nat, i: nat, aligned: nat, bytes: nat)
    requires start + n <= 8 * |data| && start < 8 * |data| && bytes == CeilDiv8(start % 8 + n)
    requires n <= 8 * aligned && aligned <= bytes && (if aligned == 0 then i == 0 else i == aligned - 1)
    ensures n <= 8 * (i + 1) && start / 8 + i < |data|
    ensures start % 8 > 0 && aligned < bytes ==>
      start / 8 + aligned < |data| &&
      AllSpelled(data, start, Or(Shl(data[start / 8 + i], start % 8), Shr(data[start / 8 + aligned], 8 - start % 8)), n, 8 * i)
    ensures !(start % 8 > 0 && aligned < bytes) ==>
      AllSpelled(data, start, Shl(data[start / 8 + i], start % 8), n, 8 * i)
  {
    hide BitAt, Shl, Shr, Or, AllSpelled;
    if aligned == 0 {
      NothingLeft(data, start, Shl(data[start / 8], start % 8));
      if start % 8 > 0 {
        NothingLeft(data, start, Or(Shl(data[start / 8], start % 8), Shr(data[start / 8], 8 - start % 8)));
      }
    } else if start % 8 > 0 && aligned < bytes {
      JoinedSpells(data, start, n, i);
    } else {
      RestSpells(data, start, n, i);
    }
  }

  lemma {:induction false} NothingLeft(data: seq<Octet>, start: nat, x: Octet)
    requires start <= 8 * |data|
    ensures AllSpelled(data, start, x, 0, 0)
  {
  }

  /** Length of the longest common prefix of two windows, byte by byte at any alignment. */
  method LongestCommonDataPrefix(a: seq<Octet>, sa: nat, ea: nat, b: seq<Octet>, sb: nat, eb: nat, maxHint: nat)
    returns (prefix: nat)
    requires ea <= 8 * |a| && eb <= 8 * |b|
    ensures sa >= ea || sb >= eb ==> prefix == 0
    ensures sa < ea && sb < eb ==>
      var n := Min(Min(ea - sa, eb - sb), maxHint);
      prefix == CommonPrefix(Window(a, sa, n), Window(b, sb, n))
  {
    hide BitAt, Shl, Shr, Or, Xor, And, HighMask, CommonPrefix, AgreeUpTo, AllSpelled, Window, LeadingZeros;
    if sa >= ea || sb >= eb { return 0; }
    var n := Min(Min(ea - sa, eb - sb), maxHint);
    var ra, qa, rb, qb := sa % 8, sa / 8, sb % 8, sb / 8;
    var aBytes, bBytes := CeilDiv8(ra + n), CeilDiv8(rb + n);
    TouchedBytes(a, sa, n);
    TouchedBytes(b, sb, n);
    var aligned := Min(aBytes, bBytes);
    var x, y := Shl(a[qa], ra), Shl(b[qb], rb);
    NothingCompared(a, sa, b, sb);
    prefix := 0;
    var i := 1;
    while i < aligned
      invariant 1 <= i && (i <= aligned || i == 1) && prefix == 8 * (i - 1) && AgreeUpTo(a, sa, b, sb, Min(prefix, n))
      invariant x == Shl(a[qa + i - 1], ra) && y == Shl(b[qb + i - 1], rb)
    {
      x, y := Or(x, Shr(a[qa + i], 8 - ra)), Or(y, Shr(b[qb + i], 8 - rb));
      JoinedSpells(a, sa, n, i - 1);
      JoinedSpells(b, sb, n, i - 1);
      CompareByte(a, sa, b, sb, n, prefix, x, y);
      var z := Xor(x, y);
      AllZero(z);
      if !IsZero(z) { return Min(prefix + LeadingZeros(z), n); }
      prefix := prefix + 8;
      x, y := Shl(a[qa + i], ra), Shl(b[qb + i], rb);
      i := i + 1;
    }
    prefix := CompareLast(a, sa, b, sb, n, aligned, prefix, x, y);
  }

  lemma {:induction false} AllZero(z: seq<bool>)
    ensures IsZero(z) <==> LeadingZeros(z) == |z|
  {
  }

  /** The part behind the loop: the last bytes, completed and masked. */
  method CompareLast(a: seq<Octet>, sa: nat, b: seq<Octet>, sb: nat, n: nat, aligned: nat, before: nat,
                     lastA: Octet, lastB: Octet) returns (prefix: nat)
    requires sa + n <= 8 * |a| && sb + n <= 8 * |b| && sa < 8 * |a| && sb < 8 * |b|
    requires aligned == Min(CeilDiv8(sa % 8 + n), CeilDiv8(sb % 8 + n))
    requires before == (if aligned == 0 then 0 else 8 * (aligned - 1)) && AgreeUpTo(a, sa, b, sb, Min(before, n))
    requires lastA == Shl(a[sa / 8 + before / 8], sa % 8) && lastB == Shl(b[sb / 8 + before / 8], sb % 8)
    ensures prefix == CommonPrefix(Window(a, sa, n), Window(b, sb, n))
  {
    hide BitAt, Shl, Shr, Or, Xor, And, HighMask, CommonPrefix, AgreeUpTo, AllSpelled, Window, LeadingZeros;
    var x := CompleteLast(a, sa, n, aligned, lastA);
    var y := CompleteLast(b, sb, n, aligned, lastB);
    var mask := HighMask(8 - (8 - n % 8) % 8);
    MaskedSpells(a, sa, x, n, before / 8);
    MaskedSpells(b, sb, y, n, before / 8);
    x, y := And(x, mask), And(y, mask);
    CompareByte(a, sa, b, sb, n, before, x, y);
    prefix := Min(before + LeadingZeros(Xor(x, y)), n);
  }

  method CompleteLast(data: seq<Octet>, start: nat, n: nat, aligned: nat, last: Octet) returns (x: Octet)
    requires start + n <= 8 * |data| && start < 8 * |data| && n <= 8 * aligned && aligned <= CeilDiv8(start % 8 + n)
    requires start / 8 + (if aligned == 0 then 0 else aligned - 1) < |data|
    requires last == Shl(data[start / 8 + (if aligned == 0 then 0 else aligned - 1)], start % 8)
    ensures var i := if aligned == 0 then 0 else aligned - 1; n <= 8 * (i + 1) && AllSpelled(data, start, x, n, 8 * i)
  {
    hide BitAt, Shl, Shr, Or, AllSpelled;
    var bytes, r := CeilDiv8(start % 8 + n), start % 8;
    LastJoin(data, start, n, if aligned == 0 then 0 else aligned - 1, aligned, bytes);
    x := last;
    if r > 0 && aligned < bytes { x := Or(x, Shr(data[start / 8 + aligned], 8 - r)); }
  }
}
