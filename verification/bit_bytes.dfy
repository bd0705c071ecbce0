/** Bytes as eight bits, most significant first, with the shifts and masks that bit buffers are built on. */
module BitBytes {
  import opened Cells

  type Octet = s: seq<bool> | |s| == 8 witness Repeat(false, 8)

  const ZERO: Octet := Repeat(false, 8)
  const ONES: Octet := Repeat(true, 8)

  // ---------------------------------------------------------------- operations on words of any width

  /** Moves bits to the front, filling up with zeros. */
  function Shl(s: seq<bool>, r: nat): (t: seq<bool>)
    requires r <= |s|
    ensures |t| == |s| && forall i :: 0 <= i < |s| ==> t[i] == (i + r < |s| && s[i + r])
  {
    s[r..] + Repeat(false, r)
  }

  /** Moves bits to the back, filling up with zeros. */
  function Shr(s: seq<bool>, r: nat): (t: seq<bool>)
    requires r <= |s|
    ensures |t| == |s| && forall i :: 0 <= i < |s| ==> t[i] == (i >= r && s[i - r])
  {
    Repeat(false, r) + s[..|s| - r]
  }

  function Or(a: seq<bool>, b: seq<bool>): (t: seq<bool>)
    requires |a| == |b|
    ensures |t| == |a| && forall i :: 0 <= i < |a| ==> t[i] == (a[i] || b[i])
  {
    seq(|a|, i requires 0 <= i < |a| => a[i] || b[i])
  }

  function And(a: seq<bool>, b: seq<bool>): (t: seq<bool>)
    requires |a| == |b|
    ensures |t| == |a| && forall i :: 0 <= i < |a| ==> t[i] == (a[i] && b[i])
  {
    seq(|a|, i requires 0 <= i < |a| => a[i] && b[i])
  }

  function Xor(a: seq<bool>, b: seq<bool>): (t: seq<bool>)
    requires |a| == |b|
    ensures |t| == |a| && forall i :: 0 <= i < |a| ==> t[i] == (a[i] != b[i])
  {
    seq(|a|, i requires 0 <= i < |a| => a[i] != b[i])
  }

  predicate IsZero(s: seq<bool>) { forall i :: 0 <= i < |s| ==> !s[i] }

  function LeadingZeros(s: seq<bool>): (k: nat)
    ensures k <= |s| && (forall i :: 0 <= i < k ==> !s[i]) && (k < |s| ==> s[k])
  {
    if s == [] || s[0] then 0 else 1 + LeadingZeros(s[1..])
  }

  function TrailingZeros(s: seq<bool>): (k: nat)
    ensures k <= |s| && (forall i :: |s| - k <= i < |s| ==> !s[i]) && (k < |s| ==> s[|s| - 1 - k])
  {
    if s == [] || s[|s| - 1] then 0 else 1 + TrailingZeros(s[..|s| - 1])
  }

  // ---------------------------------------------------------------- bits of a byte string

  predicate BitAt(data: seq<Octet>, k: nat)
    requires k < 8 * |data|
  {
    data[k / 8][k % 8]
  }

  /** `n` bits from bit `start` on. */
  function Window(data: seq<Octet>, start: nat, n: nat): (w: seq<bool>)
    requires start + n <= 8 * |data|
    ensures |w| == n && forall i :: 0 <= i < n ==> w[i] == BitAt(data, start + i)
  {
    seq(n, i requires 0 <= i < n => BitAt(data, start + i))
  }

  /** Bit `j` of byte `q`. */
  lemma {:induction false} BitOf(data: seq<Octet>, q: nat, j: nat)
    requires q < |data| && j < 8
    ensures 8 * q + j < 8 * |data| && BitAt(data, 8 * q + j) == data[q][j]
  {
  }

  /** The eight bits from any bit on are spelled by two neighbouring bytes. */
  lemma {:induction false} Straddle(data: seq<Octet>, q: nat, r: nat, j: nat)
    requires q < |data| && r < 8 && j < 8
    ensures j + r < 8 ==> 8 * q + r + j < 8 * |data| && BitAt(data, 8 * q + r + j) == Shl(data[q], r)[j]
    ensures j + r >= 8 && q + 1 < |data| ==>
      8 * q + r + j < 8 * |data| && BitAt(data, 8 * q + r + j) == Shr(data[q + 1], 8 - r)[j]
  {
    if j + r < 8 {
      BitOf(data, q, r + j);
    } else if q + 1 < |data| {
      BitOf(data, q + 1, r + j - 8);
      assert 8 * q + r + j == 8 * (q + 1) + (r + j - 8);
    }
  }

  lemma {:induction false} StraddleJoined(data: seq<Octet>, q: nat, r: nat, j: nat)
    requires q + 1 < |data| && r < 8 && j < 8
    ensures 8 * q + r + j < 8 * |data|
    ensures Or(Shl(data[q], r), Shr(data[q + 1], 8 - r))[j] == BitAt(data, 8 * q + r + j)
  {
    hide BitAt;
    Straddle(data, q, r, j);
  }

  /** The mask that keeps the first `n` bits of a byte. */
  function HighMask(n: nat): (m: Octet)
    requires n <= 8
    ensures forall i :: 0 <= i < 8 ==> m[i] == (i < n)
  {
    Shl(ONES, 8 - n)
  }

  /** The mask that keeps all but the first `n` bits. */
  function LowMask(n: nat): (m: Octet)
    requires n <= 8
    ensures forall i :: 0 <= i < 8 ==> m[i] == (i >= n)
  {
    Shr(ONES, n)
  }
}
