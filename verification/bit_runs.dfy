/** Counting equal bits at either end of a window, bytes and words at a time. */
module BitRuns {
  import opened Cells
  import opened Labels
  import opened BitBytes
  import opened BitScan

  /** Number of leading bits equal to `bit`. */
  function LeadingRun(s: seq<bool>, bit: bool): (k: nat)
    ensures k <= |s|
  {
    if s == [] || s[0] != bit then 0 else 1 + LeadingRun(s[1..], bit)
  }

  function TrailingRun(s: seq<bool>, bit: bool): (k: nat)
    ensures k <= |s|
  {
    if s == [] || s[|s| - 1] != bit then 0 else 1 + TrailingRun(s[..|s| - 1], bit)
  }

  lemma {:induction false} LeadingRunIs(s: seq<bool>, bit: bool, k: nat)
    requires k <= |s| && (forall i :: 0 <= i < k ==> s[i] == bit) && (k < |s| ==> s[k] != bit)
    ensures LeadingRun(s, bit) == k
  {
    if k > 0 { LeadingRunIs(s[1..], bit, k - 1); }
  }

  lemma {:induction false} TrailingRunIs(s: seq<bool>, bit: bool, k: nat)
    requires k <= |s| && (forall i :: |s| - k <= i < |s| ==> s[i] == bit) && (k < |s| ==> s[|s| - 1 - k] != bit)
    ensures TrailingRun(s, bit) == k
  {
    if k > 0 { TrailingRunIs(s[..|s| - 1], bit, k - 1); }
  }

  /** Bit `i` from `start` on is `bit`. */
  predicate EqualAt(data: seq<Octet>, start: nat, bit: bool, i: nat)
    requires start + i < 8 * |data|
  {
    BitAt(data, start + i) == bit
  }

  /** Bits `lo` to `hi` from `start` on are all `bit`. */
  ghost predicate AllEqual(data: seq<Octet>, start: nat, bit: bool, lo: nat, hi: nat) {
    start + hi <= 8 * |data| && forall i :: lo <= i < hi ==> EqualAt(data, start, bit, i)
  }

  /** What looking at `w` more bits tells: they are equal up to the `c`-th. */
  lemma {:induction false} LeadingStep(data: seq<Octet>, start: nat, n: nat, bit: bool, k: nat, w: nat, c: nat)
    requires start + n <= 8 * |data| && AllEqual(data, start, bit, 0, Min(k, n))
    requires forall i :: k <= i < k + c && i < k + w && i < n ==> EqualAt(data, start, bit, i)
    requires c < w && k + c < n ==> !EqualAt(data, start, bit, k + c)
    ensures c >= w ==> AllEqual(data, start, bit, 0, Min(k + w, n))
    ensures c < w || k + w >= n ==> LeadingRun(Window(data, start, n), bit) == Min(k + c, n)
  {
    hide BitAt;
    forall i | 0 <= i < Min(k + Min(c, w), n)
      ensures EqualAt(data, start, bit, i)
    {
    }
    if c < w || k + w >= n {
      var s, m := Window(data, start, n), Min(k + c, n);
      forall i | 0 <= i < m
        ensures s[i] == bit
      {
        assert EqualAt(data, start, bit, i);
      }
      LeadingRunIs(s, bit, m);
    }
  }

  /** A word as it is read from memory: the bits of `w` bytes, flipped where they equal `bit`. */
  function Flipped(data: seq<Octet>, q: nat, bytes: nat, bit: bool): (z: seq<bool>)
    requires q + bytes <= |data|
    ensures |z| == 8 * bytes
  {
    Xor(Window(data, 8 * q, 8 * bytes), Repeat(bit, 8 * bytes))
  }

  lemma {:induction false} FlippedBits(data: seq<Octet>, start: nat, n: nat, q: nat, bytes: nat, bit: bool, k: nat)
    requires start + n <= 8 * |data| && 8 * q == start + k && q + bytes <= |data|
    ensures var z := Flipped(data, q, bytes, bit);
      forall i :: k <= i < k + 8 * bytes && i < n ==> (EqualAt(data, start, bit, i) <==> !z[i - k])
  {
    hide BitAt;
    var z := Flipped(data, q, bytes, bit);
    forall i | k <= i < k + 8 * bytes && i < n
      ensures EqualAt(data, start, bit, i) <==> !z[i - k]
    {
      assert 8 * q + (i - k) == start + i;
    }
  }

  /** Looking at whole bytes of the window. */
  lemma {:induction false} LeadingWord(data: seq<Octet>, start: nat, n: nat, bit: bool, k: nat, q: nat, bytes: nat)
    requires start + n <= 8 * |data| && AllEqual(data, start, bit, 0, Min(k, n)) && k <= n
    requires 8 * q == start + k && q + bytes <= |data|
    ensures var c := LeadingZeros(Flipped(data, q, bytes, bit)); var w := 8 * bytes;
      && (c >= w ==> AllEqual(data, start, bit, 0, Min(k + w, n)))
      && (c < w || k + w >= n ==> LeadingRun(Window(data, start, n), bit) == Min(k + c, n))
  {
    hide BitAt, Window, Flipped;
    var z := Flipped(data, q, bytes, bit);
    var c := LeadingZeros(z);
    FlippedBits(data, start, n, q, bytes, bit, k);
    forall i | k <= i < k + c && i < k + 8 * bytes && i < n
      ensures EqualAt(data, start, bit, i)
    {
      assert !z[i - k];
    }
    LeadingStep(data, start, n, bit, k, 8 * bytes, c);
  }

  /** Looking at the rest of the first byte. */
  lemma {:induction false} LeadingFirst(data: seq<Octet>, start: nat, n: nat, bit: bool)
    requires start + n <= 8 * |data| && n > 0
    ensures var q, r := start / 8, start % 8;
      var c := LeadingZeros(Shl(Xor(data[q], Repeat(bit, 8)), r));
      && (c >= 8 - r ==> AllEqual(data, start, bit, 0, Min(8 - r, n)))
      && (c < 8 - r || n <= 8 - r ==> LeadingRun(Window(data, start, n), bit) == Min(c, n))
  {
    hide BitAt;
    var q, r := start / 8, start % 8;
    var z := Shl(Xor(data[q], Repeat(bit, 8)), r);
    var c := LeadingZeros(z);
    forall i | 0 <= i < 8 - r && i < n
      ensures EqualAt(data, start, bit, i) <==> !z[i]
    {
      BitOf(data, q, r + i);
      assert 8 * q + (r + i) == start + i;
    }
    LeadingStep(data, start, n, bit, 0, 8 - r, c);
  }

  lemma {:induction false} ByteIsWindow(data: seq<Octet>, q: nat, bit: bool)
    requires q < |data|
    ensures Xor(data[q], Repeat(bit, 8)) == Flipped(data, q, 1, bit)
  {
    hide BitAt;
    var w := Window(data, 8 * q, 8);
    forall j | 0 <= j < 8
      ensures w[j] == data[q][j]
    {
      BitOf(data, q, j);
    }
    assert w == data[q];
  }

  /** All but the last `rem` bits of the window equal `bit`, and the next one starts byte `q`. */
  ghost predicate Scanned(data: seq<Octet>, start: nat, n: nat, bit: bool, q: nat, rem: nat) {
    start + n <= 8 * |data| && rem <= n && 8 * q == start + n - rem && AllEqual(data, start, bit, 0, n - rem)
  }

  /** Scans byte by byte, only up to the next word boundary when an address is given. */
  method ScanBytes(data: seq<Octet>, start: nat, n: nat, bit: bool, from: nat, left: nat, address: Option<nat>)
    returns (hit: Option<nat>, q: nat, rem: nat)
    requires Scanned(data, start, n, bit, from, left)
    ensures hit.Some? ==> hit.value == LeadingRun(Window(data, start, n), bit)
    ensures hit.None? ==> Scanned(data, start, n, bit, q, rem) && (address.None? ==> rem < 8)
  {
    hide BitAt, Xor, LeadingRun, LeadingZeros, Window, AllEqual, Flipped;
    q, rem := from, left;
    while rem >= 8 && !(address.Some? && (address.value + q) % 8 == 0)
      invariant Scanned(data, start, n, bit, q, rem)
    {
      LeadingWord(data, start, n, bit, n - rem, q, 1);
      ByteIsWindow(data, q, bit);
      var c := LeadingZeros(Xor(data[q], Repeat(bit, 8)));
      if c < 8 { return Some(n - rem + c), q, rem; }
      q, rem := q + 1, rem - 8;
    }
    hit := None;
  }

  /** Scans eight bytes at a time. */
  method ScanWords(data: seq<Octet>, start: nat, n: nat, bit: bool, from: nat, left: nat)
    returns (hit: Option<nat>, q: nat, rem: nat)
    requires Scanned(data, start, n, bit, from, left)
    ensures hit.Some? ==> hit.value == LeadingRun(Window(data, start, n), bit)
    ensures hit.None? ==> Scanned(data, start, n, bit, q, rem)
  {
    hide BitAt, Xor, LeadingRun, LeadingZeros, Window, AllEqual, Flipped;
    q, rem := from, left;
    while rem >= 64
      invariant Scanned(data, start, n, bit, q, rem)
    {
      LeadingWord(data, start, n, bit, n - rem, q, 8);
      var c := LeadingZeros(Flipped(data, q, 8, bit));
      if c < 64 { return Some(n - rem + c), q, rem; }
      q, rem := q + 8, rem - 64;
    }
    hit := None;
  }

  /** Leading bits equal to `bit`; words are read only at addresses that are multiples of eight. */
  method BitsMemscan(data: seq<Octet>, offset: nat, bitCount: nat, bit: bool, address: nat) returns (r: nat)
    requires offset + bitCount <= 8 * |data|
    ensures r == LeadingRun(Window(data, offset, bitCount), bit)
  {
    hide BitAt, Shl, Xor, LeadingRun, LeadingZeros, Window, AllEqual, Flipped;
    if bitCount == 0 {
      NoBits(data, offset, bit);
      return 0;
    }
    var q, shift, rem := offset / 8, offset % 8, bitCount;
    var hit;
    NothingSeen(data, offset, bit);
    if shift > 0 {
      LeadingFirst(data, offset, bitCount, bit);
      var c := LeadingZeros(Shl(Xor(data[q], Repeat(bit, 8)), shift));
      var l := 8 - shift;
      if c < l || bitCount <= l { return Min(c, bitCount); }
      q, rem := q + 1, rem - l;
    }
    hit, q, rem := ScanBytes(data, offset, bitCount, bit, q, rem, Some(address));
    if hit.Some? { return hit.value; }
    hit, q, rem := ScanWords(data, offset, bitCount, bit, q, rem);
    if hit.Some? { return hit.value; }
    hit, q, rem := ScanBytes(data, offset, bitCount, bit, q, rem, None);
    if hit.Some? { return hit.value; }
    r := bitCount;
    if rem > 0 {
      LeadingWord(data, offset, bitCount, bit, bitCount - rem, q, 1);
      ByteIsWindow(data, q, bit);
      var c := LeadingZeros(Xor(data[q], Repeat(bit, 8)));
      if c < rem { r := bitCount - rem + c; }
    } else {
      AllSeen(data, offset, bitCount, bit);
    }
  }

  lemma {:induction false} NoBits(data: seq<Octet>, start: nat, bit: bool)
    requires start <= 8 * |data|
    ensures LeadingRun(Window(data, start, 0), bit) == 0 && TrailingRun(Window(data, start, 0), bit) == 0
  {
  }

  lemma {:induction false} NothingSeen(data: seq<Octet>, start: nat, bit: bool)
    requires start <= 8 * |data|
    ensures AllEqual(data, start, bit, 0, 0)
  {
  }

  lemma {:induction false} AllSeen(data: seq<Octet>, start: nat, n: nat, bit: bool)
    requires start + n <= 8 * |data| && AllEqual(data, start, bit, 0, n)
    ensures LeadingRun(Window(data, start, n), bit) == n
  {
    hide BitAt;
    LeadingStep(data, start, n, bit, n, 0, 0);
  }

  // ---------------------------------------------------------------- from the end

  /** Bit `j` from the end of the window is `bit`. */
  predicate EqualRevAt(data: seq<Octet>, start: nat, n: nat, bit: bool, j: nat)
    requires start + n <= 8 * |data| && j < n
  {
    BitAt(data, start + n - 1 - j) == bit
  }

  ghost predicate AllEqualRev(data: seq<Octet>, start: nat, n: nat, bit: bool, k: nat) {
    start + n <= 8 * |data| && k <= n && forall j :: 0 <= j < k ==> EqualRevAt(data, start, n, bit, j)
  }

  /** What looking at `w` more bits from the end tells: the last `c` of them are equal. */
  lemma {:induction false} TrailingStep(data: seq<Octet>, start: nat, n: nat, bit: bool, k: nat, w: nat, c: nat)
    requires AllEqualRev(data, start, n, bit, k)
    requires forall j :: k <= j < k + c && j < k + w && j < n ==> EqualRevAt(data, start, n, bit, j)
    requires c < w && k + c < n ==> !EqualRevAt(data, start, n, bit, k + c)
    ensures c >= w && k + w <= n ==> AllEqualRev(data, start, n, bit, k + w)
    ensures c < w || k + w >= n ==> TrailingRun(Window(data, start, n), bit) == Min(k + c, n)
  {
    hide BitAt;
    var seen := Min(k + Min(c, w), n);
    forall j | 0 <= j < seen
      ensures EqualRevAt(data, start, n, bit, j)
    {
    }
    if c < w || k + w >= n {
      var s := Window(data, start, n);
      forall i | n - seen <= i < n
        ensures s[i] == bit
      {
        assert EqualRevAt(data, start, n, bit, n - 1 - i);
      }
      TrailingRunIs(s, bit, Min(k + c, n));
    }
  }

  lemma {:induction false} FlippedBitsRev(data: seq<Octet>, start: nat, n: nat, bit: bool, k: nat, q: nat, bytes: nat)
    requires start + n <= 8 * |data| && k <= n && 8 * (q + bytes) == start + n - k
    ensures q + bytes <= |data|
    ensures var z := Flipped(data, q, bytes, bit);
      forall j :: k <= j < k + 8 * bytes && j < n ==> (EqualRevAt(data, start, n, bit, j) <==> !z[8 * bytes - 1 - (j - k)])
  {
    hide BitAt;
    var z := Flipped(data, q, bytes, bit);
    forall j | k <= j < k + 8 * bytes && j < n
      ensures EqualRevAt(data, start, n, bit, j) <==> !z[8 * bytes - 1 - (j - k)]
    {
      assert 8 * q + (8 * bytes - 1 - (j - k)) == start + n - 1 - j;
    }
  }

  /** Looking at whole bytes that end where the equal bits start. */
  lemma {:induction false} TrailingWord(data: seq<Octet>, start: nat, n: nat, bit: bool, k: nat, q: nat, bytes: nat)
    requires AllEqualRev(data, start, n, bit, k) && 8 * (q + bytes) == start + n - k
    ensures q + bytes <= |data|
    ensures var c := TrailingZeros(Flipped(data, q, bytes, bit)); var w := 8 * bytes;
      && (c >= w && k + w <= n ==> AllEqualRev(data, start, n, bit, k + w))
      && (c < w || k + w >= n ==> TrailingRun(Window(data, start, n), bit) == Min(k + c, n))
  {
    hide BitAt, Window, Flipped;
    var w := 8 * bytes;
    FlippedBitsRev(data, start, n, bit, k, q, bytes);
    var z := Flipped(data, q, bytes, bit);
    var c := TrailingZeros(z);
    assert |z| == w;
    forall j | k <= j < k + c && j < k + w && j < n
      ensures EqualRevAt(data, start, n, bit, j)
    {
      assert !z[w - 1 - (j - k)];
    }
    TrailingStep(data, start, n, bit, k, w, c);
  }

  lemma {:induction false} EndByteBits(data: seq<Octet>, start: nat, n: nat, bit: bool, q: nat, r: nat)
    requires start + n <= 8 * |data| && start + n == 8 * q + r && 0 < r < 8
    ensures q < |data|
    ensures var z := Xor(Shr(data[q], 8 - r), Repeat(bit, 8));
      forall j :: 0 <= j < r && j < n ==> (EqualRevAt(data, start, n, bit, j) <==> !z[7 - j])
  {
    hide BitAt;
    var z := Xor(Shr(data[q], 8 - r), Repeat(bit, 8));
    forall j | 0 <= j < r && j < n
      ensures EqualRevAt(data, start, n, bit, j) <==> !z[7 - j]
    {
      BitOf(data, q, r - 1 - j);
      assert 8 * q + (r - 1 - j) == start + n - 1 - j;
    }
  }

  /** Looking at the front of the byte in which the window ends. */
  lemma {:induction false} TrailingFirst(data: seq<Octet>, start: nat, n: nat, bit: bool, q: nat, r: nat)
    requires start + n <= 8 * |data| && start + n == 8 * q + r && 0 < r < 8
    ensures q < |data|
    ensures var c := TrailingZeros(Xor(Shr(data[q], 8 - r), Repeat(bit, 8)));
      && (c >= r && r <= n ==> AllEqualRev(data, start, n, bit, r))
      && (c < r || r >= n ==> TrailingRun(Window(data, start, n), bit) == Min(c, n))
  {
    hide BitAt, Window, Shr, Xor;
    EndByteBits(data, start, n, bit, q, r);
    var z := Xor(Shr(data[q], 8 - r), Repeat(bit, 8));
    var c := TrailingZeros(z);
    assert |z| == 8;
    forall j | 0 <= j < c && j < r && j < n
      ensures EqualRevAt(data, start, n, bit, j)
    {
      assert !z[7 - j];
    }
    TrailingStep(data, start, n, bit, 0, r, c);
  }

  /** The last `res` bits of the window equal `bit`, and byte `q` starts where they do. */
  ghost predicate ScannedRev(data: seq<Octet>, start: nat, n: nat, bit: bool, q: nat, res: nat) {
    res <= n && 8 * q == start + n - res && AllEqualRev(data, start, n, bit, res)
  }

  /** Scans backwards, `bytes` at a time. */
  method ScanRev(data: seq<Octet>, start: nat, n: nat, bit: bool, bytes: nat, from: nat, seen: nat)
    returns (hit: Option<nat>, q: nat, res: nat)
    requires bytes > 0 && ScannedRev(data, start, n, bit, from, seen)
    ensures hit.Some? ==> hit.value == TrailingRun(Window(data, start, n), bit)
    ensures hit.None? ==> ScannedRev(data, start, n, bit, q, res) && n - res < 8 * bytes
  {
    hide BitAt, TrailingRun, TrailingZeros, Window, AllEqualRev, Flipped;
    q, res := from, seen;
    while n - res >= 8 * bytes
      invariant ScannedRev(data, start, n, bit, q, res)
      decreases n - res
    {
      q := q - bytes;
      TrailingWord(data, start, n, bit, res, q, bytes);
      var c := TrailingZeros(Flipped(data, q, bytes, bit));
      if c < 8 * bytes { return Some(res + c), q, res; }
      res := res + 8 * bytes;
    }
    hit := None;
  }

  /** Trailing bits equal to `bit`. */
  method BitsMemscanRev(data: seq<Octet>, offset: nat, bitCount: nat, bit: bool) returns (res: nat)
    requires offset + bitCount <= 8 * |data|
    ensures res == TrailingRun(Window(data, offset, bitCount), bit)
  {
    hide BitAt, Shr, Xor, TrailingRun, TrailingZeros, Window, AllEqualRev, Flipped;
    if bitCount == 0 {
      NoBits(data, offset, bit);
      return 0;
    }
    var q, shift := (offset + bitCount) / 8, (offset + bitCount) % 8;
    var hit;
    res := shift;
    NothingSeenRev(data, offset, bitCount, bit);
    if shift > 0 {
      TrailingFirst(data, offset, bitCount, bit, q, shift);
      var c := TrailingZeros(Xor(Shr(data[q], 8 - shift), Repeat(bit, 8)));
      if c < shift || res >= bitCount { return Min(c, bitCount); }
    }
    hit, q, res := ScanRev(data, offset, bitCount, bit, 4, q, res);
    if hit.Some? { return hit.value; }
    hit, q, res := ScanRev(data, offset, bitCount, bit, 1, q, res);
    if hit.Some? { return hit.value; }
    if bitCount > res {
      q := q - 1;
      TrailingWord(data, offset, bitCount, bit, res, q, 1);
      ByteIsWindow(data, q, bit);
      res := res + Min(TrailingZeros(Xor(data[q], Repeat(bit, 8))), bitCount - res);
    } else {
      AllSeenRev(data, offset, bitCount, bit);
    }
  }

  lemma {:induction false} NothingSeenRev(data: seq<Octet>, start: nat, n: nat, bit: bool)
    requires start + n <= 8 * |data|
    ensures AllEqualRev(data, start, n, bit, 0)
  {
  }

  lemma {:induction false} AllSeenRev(data: seq<Octet>, start: nat, n: nat, bit: bool)
    requires AllEqualRev(data, start, n, bit, n)
    ensures TrailingRun(Window(data, start, n), bit) == n
  {
    hide BitAt;
    TrailingStep(data, start, n, bit, n, 0, 0);
  }

  // ---------------------------------------------------------------- uniform windows

  predicate ClearBetween(z: Octet, lo: nat, hi: nat) { forall j :: lo <= j < hi && j < 8 ==> !z[j] }

  /** A byte differs from the target nowhere between two positions exactly when those window bits are equal. */
  lemma {:induction false} ClearIsEqual(data: seq<Octet>, start: nat, bit: bool, k: nat, q: nat, lo: nat, hi: nat)
    requires q < |data| && lo <= hi <= 8 && 8 * q + lo == start + k
    ensures ClearBetween(Xor(data[q], Repeat(bit, 8)), lo, hi) <==> AllEqual(data, start, bit, k, k + hi - lo)
  {
    hide BitAt;
    var z: Octet := Xor(data[q], Repeat(bit, 8));
    forall j | lo <= j < hi
      ensures EqualAt(data, start, bit, k + j - lo) <==> !z[j]
    {
      BitOf(data, q, j);
      assert 8 * q + j == start + (k + j - lo);
    }
    if AllEqual(data, start, bit, k, k + hi - lo) {
      forall j | lo <= j < hi
        ensures !z[j]
      {
        assert EqualAt(data, start, bit, k + j - lo);
      }
    }
    if ClearBetween(z, lo, hi) {
      forall i | k <= i < k + hi - lo
        ensures EqualAt(data, start, bit, i)
      {
        assert !z[i - k + lo];
        assert k + (i - k + lo) - lo == i;
      }
    }
  }

  lemma {:induction false} MaskedClear(z: Octet, lo: nat, hi: nat)
    requires lo <= 8 && hi <= 8
    ensures IsZero(And(And(z, LowMask(lo)), HighMask(hi))) <==> ClearBetween(z, lo, hi)
    ensures IsZero(And(z, LowMask(lo))) <==> ClearBetween(z, lo, 8)
    ensures IsZero(And(z, HighMask(hi))) <==> ClearBetween(z, 0, hi)
  {
    hide LowMask, HighMask;
    var both, low, high := And(And(z, LowMask(lo)), HighMask(hi)), And(z, LowMask(lo)), And(z, HighMask(hi));
    forall j | 0 <= j < 8
      ensures both[j] == (z[j] && lo <= j < hi) && low[j] == (z[j] && lo <= j) && high[j] == (z[j] && j < hi)
    {
    }
  }

  lemma {:induction false} EqualSplit(data: seq<Octet>, start: nat, bit: bool, lo: nat, mid: nat, hi: nat)
    requires lo <= mid <= hi && start + hi <= 8 * |data|
    ensures AllEqual(data, start, bit, lo, hi) <==> AllEqual(data, start, bit, lo, mid) && AllEqual(data, start, bit, mid, hi)
  {
    hide BitAt;
  }

  /** A window is uniform in a bit exactly when all its bits equal it. */
  lemma {:induction false} UniformIs(data: seq<Octet>, start: nat, n: nat)
    requires start + n <= 8 * |data| && n > 0
    ensures var bit := BitAt(data, start);
      Uniform(Window(data, start, n)) == if AllEqual(data, start, bit, 0, n) then Some(bit) else None
  {
    hide BitAt;
    var s, bit := Window(data, start, n), BitAt(data, start);
    assert s[0] == bit;
    if AllEqual(data, start, bit, 0, n) {
      forall i | 0 <= i < n
        ensures s[i] == bit
      {
        assert EqualAt(data, start, bit, i);
      }
      assert s == Repeat(bit, n);
    }
    if s == Repeat(bit, n) {
      forall i | 0 <= i < n
        ensures EqualAt(data, start, bit, i)
      {
        assert s[i] == bit;
      }
    }
  }

  lemma {:induction false} ByteEquals(x: Octet, bit: bool)
    ensures x == Repeat(bit, 8) <==> ClearBetween(Xor(x, Repeat(bit, 8)), 0, 8)
  {
    var z: Octet := Xor(x, Repeat(bit, 8));
    if ClearBetween(z, 0, 8) {
      forall j | 0 <= j < 8
        ensures x[j] == bit
      {
        assert !z[j];
      }
    }
  }

  lemma {:induction false} LastMask(n: nat, r: nat, rest: nat)
    requires r < 8 && n == rest + (8 - r) && rest % 8 != 0
    ensures (8 - (n + r) % 8) % 8 == 8 - rest % 8
  {
    assert n + r == rest + 8;
  }

  /** Whether a short window that reaches beyond its first byte is all `bit`. */
  method TestLongUniform(data: seq<Octet>, start: nat, n: nat, bit: bool) returns (same: bool)
    requires start + n <= 8 * |data| && start % 8 + n > 8
    ensures same <==> AllEqual(data, start, bit, 0, n)
  {
    hide BitAt, Xor, And, LowMask, HighMask, AllEqual, ClearBetween;
    var q, r, target := start / 8, start % 8, Repeat(bit, 8);
    ClearIsEqual(data, start, bit, 0, q, r, 8);
    EqualSplit(data, start, bit, 0, 8 - r, n);
    MaskedClear(Xor(data[q], target), r, 8);
    if !IsZero(And(Xor(data[q], target), LowMask(r))) { return false; }
    var rest := n - (8 - r);
    for i := 0 to rest / 8
      invariant q == start / 8 + i && AllEqual(data, start, bit, 0, 8 - r + 8 * i)
    {
      q := q + 1;
      ClearIsEqual(data, start, bit, 8 - r + 8 * i, q, 0, 8);
      ByteEquals(data[q], bit);
      EqualSplit(data, start, bit, 0, 8 - r + 8 * i, 8 - r + 8 * (i + 1));
      EqualSplit(data, start, bit, 0, 8 - r + 8 * (i + 1), n);
      if data[q] != target { return false; }
    }
    if rest % 8 != 0 {
      var done := 8 - r + 8 * (rest / 8);
      q := q + 1;
      ClearIsEqual(data, start, bit, done, q, 0, rest % 8);
      EqualSplit(data, start, bit, 0, done, n);
      LastMask(n, r, rest);
      MaskedClear(Xor(data[q], target), 0, rest % 8);
      if !IsZero(And(Xor(data[q], target), HighMask(8 - (8 - (n + r) % 8) % 8))) { return false; }
    }
    same := true;
  }

  /** The bit that all of a window consists of; none for the empty window or when data is missing. */
  method TestUniform(data: seq<Octet>, start: nat, end: nat, address: nat) returns (r: Option<bool>)
    ensures start >= end || end > 8 * |data| ==> r == None
    ensures start < end <= 8 * |data| ==> r == Uniform(Window(data, start, end - start))
  {
    hide BitAt, Xor, And, LowMask, HighMask, AllEqual, ClearBetween, Uniform, Window;
    if start >= end || CeilDiv8(end) > |data| { return None; }
    var n, q, shift := end - start, start / 8, start % 8;
    var bit := data[q][shift];
    BitOf(data, q, shift);
    UniformIs(data, start, n);
    var same;
    if n < 64 {
      if shift + n <= 8 {
        ClearIsEqual(data, start, bit, 0, q, shift, shift + n);
        MaskedClear(Xor(data[q], Repeat(bit, 8)), shift, shift + n);
        assert 8 - (8 - (n + shift) % 8) % 8 == shift + n;
        same := IsZero(And(And(Xor(data[q], Repeat(bit, 8)), LowMask(shift)), HighMask(8 - (8 - (n + shift) % 8) % 8)));
      } else {
        same := TestLongUniform(data, start, n, bit);
      }
    } else {
      var run := BitsMemscan(data, start, n, bit, address);
      RunIsAll(data, start, n, bit);
      same := run == n;
    }
    r := if same then Some(bit) else None;
  }

  lemma {:induction false} RunIsAll(data: seq<Octet>, start: nat, n: nat, bit: bool)
    requires start + n <= 8 * |data|
    ensures LeadingRun(Window(data, start, n), bit) == n <==> AllEqual(data, start, bit, 0, n)
  {
    hide BitAt;
    if AllEqual(data, start, bit, 0, n) { AllSeen(data, start, n, bit); }
    var s := Window(data, start, n);
    if LeadingRun(s, bit) == n {
      LeadingRunAll(s, bit);
      forall i | 0 <= i < n
        ensures EqualAt(data, start, bit, i)
      {
        assert s[i] == bit;
      }
    }
  }

  lemma {:induction false} LeadingRunAll(s: seq<bool>, bit: bool)
    requires LeadingRun(s, bit) == |s|
    ensures forall i :: 0 <= i < |s| ==> s[i] == bit
  {
    if s != [] {
      LeadingRunAll(s[1..], bit);
      assert forall i :: 1 <= i < |s| ==> s[i] == s[1..][i - 1];
    }
  }
}
