/** Lexicographic order of bit strings, and how it is found in pieces. */
module BitOrder {
  import opened Cells
  import opened Labels

  datatype Ordering = Less | Equal | Greater {
    function Reverse(): Ordering {
      match this
      case Less => Greater
      case Equal => Equal
      case Greater => Less
    }
  }

  /** Lexicographic order, a proper prefix being smaller. */
  function LexCmp(a: seq<bool>, b: seq<bool>): Ordering {
    var i := CommonPrefix(a, b);
    if i < |a| && i < |b| then (if a[i] then Greater else Less)
    else if |a| < |b| then Less
    else if |a| > |b| then Greater
    else Equal
  }

  function Compare(a: nat, b: nat): Ordering { if a < b then Less else if a > b then Greater else Equal }

  /** Strings of one length compare like the numbers they spell. */
  lemma {:induction false} LexIsNumeric(a: seq<bool>, b: seq<bool>)
    requires |a| == |b|
    ensures LexCmp(a, b) == Compare(BitsUint(a), BitsUint(b))
    ensures LexCmp(a, b) == Equal <==> a == b
  {
    if a != [] {
      BitsUintHead(a);
      BitsUintHead(b);
      BitsUintBound(a[1..]);
      BitsUintBound(b[1..]);
      if a[0] == b[0] {
        LexIsNumeric(a[1..], b[1..]);
        assert a == [a[0]] + a[1..] && b == [b[0]] + b[1..];
      }
    }
  }

  /** Only what follows equal beginnings matters. */
  lemma {:induction false} LexAfterEqual(common: seq<bool>, a: seq<bool>, b: seq<bool>)
    ensures LexCmp(common + a, common + b) == LexCmp(a, b)
  {
    if common == [] {
      assert common + a == a && common + b == b;
    } else {
      LexAfterEqual(common[1..], a, b);
      assert (common + a)[1..] == common[1..] + a && (common + b)[1..] == common[1..] + b;
    }
  }

  /** A difference in the first pieces decides. */
  lemma {:induction false} LexFirstDiffers(x: seq<bool>, y: seq<bool>, a: seq<bool>, b: seq<bool>)
    requires |x| == |y| && x != y
    ensures LexCmp(x + a, y + b) == LexCmp(x, y)
  {
    hide LexCmp;
    LexStep(x, y);
    LexStep(x + a, y + b);
    assert (x + a)[0] == x[0] && (y + b)[0] == y[0];
    if x[0] == y[0] {
      assert x == [x[0]] + x[1..] && y == [y[0]] + y[1..];
      assert (x + a)[1..] == x[1..] + a && (y + b)[1..] == y[1..] + b;
      LexFirstDiffers(x[1..], y[1..], a, b);
    }
  }

  /** The first bits decide, or all the others. */
  lemma {:induction false} LexStep(a: seq<bool>, b: seq<bool>)
    requires a != [] && b != []
    ensures LexCmp(a, b) == if a[0] == b[0] then LexCmp(a[1..], b[1..]) else if a[0] then Greater else Less
  {
  }

  lemma {:induction false} LexPrefix(a: seq<bool>, b: seq<bool>)
    requires a <= b || b <= a
    ensures LexCmp(a, b) == Compare(|a|, |b|)
  {
    var common := if |a| <= |b| then a else b;
    LexAfterEqual(common, a[|common|..], b[|common|..]);
    assert a == common + a[|common|..] && b == common + b[|common|..];
  }
}
