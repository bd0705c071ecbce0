/** Signatures are unambiguous: equal text means equal types, names aside. */
module AbiSignature {
  import opened Cells
  import opened AbiTypes
  import opened AbiRoundTrip

  /** Equality that ignores the names of tuple items. */
  predicate SameTypes(a: AbiType, b: AbiType) {
    match (a, b)
    case (Uint(m), Uint(n)) => m == n
    case (Int(m), Int(n)) => m == n
    case (VarUint(m), VarUint(n)) => m == n
    case (VarInt(m), VarInt(n)) => m == n
    case (FixedBytes(m), FixedBytes(n)) => m == n
    case (Tuple(xs), Tuple(ys)) => |xs| == |ys| && forall i :: 0 <= i < |xs| ==> SameTypes(xs[i].ty, ys[i].ty)
    case (Array(x), Array(y)) => SameTypes(x, y)
    case (FixedArray(x, m), FixedArray(y, n)) => SameTypes(x, y) && m == n
    case (Map(j, x), Map(k, y)) => j == k && SameTypes(x, y)
    case (Optional(x), Optional(y)) => SameTypes(x, y)
    case (Ref(x), Ref(y)) => SameTypes(x, y)
    case _ => IsWord(a) && a == b
  }

  // ---------------------------------------------------------------- balanced text

  function Step(c: char): int { if c == '(' then 1 else if c == ')' then -1 else 0 }

  /** Opening minus closing parentheses. */
  function Depth(s: string): int {
    if s == "" then 0 else Depth(s[..|s| - 1]) + Step(s[|s| - 1])
  }

  lemma {:induction false} DepthConcat(s: string, t: string)
    ensures Depth(s + t) == Depth(s) + Depth(t)
  {
    if t == "" {
      assert s + t == s;
    } else {
      DepthConcat(s, t[..|t| - 1]);
      assert (s + t)[..|s + t| - 1] == s + t[..|t| - 1];
    }
  }

  /** No prefix closes more than it opens, and everything is closed at the end. */
  ghost predicate Proper(s: string) {
    Depth(s) == 0 && forall k :: 0 <= k <= |s| ==> Depth(s[..k]) >= 0
  }

  /** Proper, with commas between parentheses only. */
  ghost predicate Balanced(s: string) {
    Proper(s) && forall k :: 0 <= k < |s| && s[k] == ',' ==> Depth(s[..k]) >= 1
  }

  predicate Flat(s: string) { forall i :: 0 <= i < |s| ==> s[i] != '(' && s[i] != ')' && s[i] != ',' }

  lemma {:induction false} FlatDepth(s: string)
    requires Flat(s)
    ensures Depth(s) == 0
  {
    if s != "" { FlatDepth(s[..|s| - 1]); }
  }

  lemma {:induction false} FlatBalanced(s: string)
    requires Flat(s)
    ensures Balanced(s)
  {
    forall k | 0 <= k <= |s|
      ensures Depth(s[..k]) == 0
    {
      FlatDepth(s[..k]);
    }
    assert s[..|s|] == s;
  }

  /** Depth inside a concatenation. */
  lemma {:induction false} DepthInside(s: string, t: string, k: nat)
    requires k <= |s + t|
    ensures Depth((s + t)[..k]) == if k <= |s| then Depth(s[..k]) else Depth(s) + Depth(t[..k - |s|])
  {
    if k <= |s| {
      assert (s + t)[..k] == s[..k];
    } else {
      assert (s + t)[..k] == s + t[..k - |s|];
      DepthConcat(s, t[..k - |s|]);
    }
  }

  lemma {:induction false} ProperConcat(s: string, t: string)
    requires Proper(s) && Proper(t)
    ensures Proper(s + t)
    ensures Balanced(s) && Balanced(t) ==> Balanced(s + t)
  {
    DepthConcat(s, t);
    forall k | 0 <= k <= |s + t|
      ensures Depth((s + t)[..k]) == if k <= |s| then Depth(s[..k]) else Depth(s) + Depth(t[..k - |s|])
    {
      DepthInside(s, t, k);
    }
    assert s[..|s|] == s && t[..0] == "";
  }

  lemma {:induction false} EnclosedDepth(open: string, inner: string, k: nat)
    requires Flat(open) && Depth(inner) == 0 && k <= |open| + |inner| + 2
    ensures var s := open + "(" + inner + ")";
      Depth(s[..k]) ==
        if |open| < k <= |open| + 1 + |inner| then 1 + Depth(inner[..k - |open| - 1]) else 0
  {
    var s, head := open + "(" + inner + ")", open + "(";
    assert "("[..0] == "" && ")"[..0] == "";
    FlatDepth(open);
    DepthConcat(open, "(");
    if k <= |open| {
      assert s[..k] == open[..k];
      FlatDepth(open[..k]);
    } else if k <= |open| + 1 + |inner| {
      assert s[..k] == head + inner[..k - |head|];
      DepthConcat(head, inner[..k - |head|]);
    } else {
      assert s[..k] == head + inner + ")";
      DepthConcat(head + inner, ")");
      DepthConcat(head, inner);
    }
  }

  lemma {:induction false} EnclosedBalanced(open: string, inner: string)
    requires Flat(open) && Proper(inner)
    ensures Balanced(open + "(" + inner + ")")
  {
    hide Depth;
    var s := open + "(" + inner + ")";
    forall k | 0 <= k <= |s|
      ensures Depth(s[..k]) >= 0 && (k < |s| && s[k] == ',' ==> Depth(s[..k]) >= 1)
    {
      EnclosedDepth(open, inner, k);
      if k < |open| { assert s[k] == open[k]; }
    }
    EnclosedDepth(open, inner, |s|);
    assert s[..|s|] == s;
  }

  lemma {:induction false} CommaProper()
    ensures Proper(",") && Proper("")
  {
    assert ","[..0] == "" && ","[..1] == "," && Depth("") == 0;
  }

  lemma {:induction false} WordFlat(s: string)
    requires AllWordChars(s)
    ensures Flat(s)
  {
    forall i | 0 <= i < |s|
      ensures s[i] != '(' && s[i] != ')' && s[i] != ','
    {
      assert IsWordChar(s[i]);
    }
  }

  lemma {:induction false} ShowBalanced(ty: AbiType)
    ensures Balanced(Show(ty)) && Show(ty) != ""
    decreases ty, 0
  {
    hide Decimal, ShowPlain, ShowWord, Balanced, Proper, Depth, Flat;
    match ty {
      case Tuple(items) =>
        ItemsProper(ty, |items|);
        var inner := ShowItems(ty, |items|);
        WordFlat("");
        EnclosedBalanced("", inner);
        assert "" + "(" + inner + ")" == "(" + inner + ")";
      case Array(elem) =>
        ShowBalanced(elem);
        BracketsFlat("");
        Appended(Show(elem), "[" + "" + "]");
        assert "[" + "" + "]" == "[]";
      case FixedArray(elem, n) =>
        ShowBalanced(elem);
        DecimalFlat(n);
        BracketsFlat(Decimal(n));
        Appended(Show(elem), "[" + Decimal(n) + "]");
        assert Show(elem) + ("[" + Decimal(n) + "]") == Show(elem) + "[" + Decimal(n) + "]";
      case Map(key, value) =>
        ShowBalanced(value);
        PairProper(ShowPlain(key), Show(value), key);
        var inner := ShowPlain(key) + "," + Show(value);
        WordFlat("map");
        EnclosedBalanced("map", inner);
        assert "map" + "(" + inner + ")" == "map(" + ShowPlain(key) + "," + Show(value) + ")";
      case Optional(inner) =>
        ShowBalanced(inner);
        BalancedIsProper(Show(inner));
        WordFlat("optional");
        EnclosedBalanced("optional", Show(inner));
        assert "optional" + "(" + Show(inner) + ")" == "optional(" + Show(inner) + ")";
      case Ref(inner) =>
        ShowBalanced(inner);
        BalancedIsProper(Show(inner));
        WordFlat("ref");
        EnclosedBalanced("ref", Show(inner));
        assert "ref" + "(" + Show(inner) + ")" == "ref(" + Show(inner) + ")";
      case _ =>
        WordChars(ty);
        WordFlat(ShowWord(ty));
        FlatBalanced(ShowWord(ty));
    }
  }

  lemma {:induction false} BalancedIsProper(s: string)
    requires Balanced(s)
    ensures Proper(s)
  {
  }

  lemma {:induction false} DecimalFlat(n: nat)
    ensures Flat(Decimal(n))
  {
  }

  lemma {:induction false} BracketsFlat(digits: string)
    requires Flat(digits)
    ensures Flat("[" + digits + "]")
  {
  }

  lemma {:induction false} Appended(s: string, t: string)
    requires Balanced(s) && Flat(t)
    ensures Balanced(s + t)
  {
    FlatBalanced(t);
    ProperConcat(s, t);
  }

  lemma {:induction false} PairProper(k: string, v: string, key: PlainAbiType)
    requires k == ShowPlain(key) && Balanced(v)
    ensures Balanced(k) && Proper(k + "," + v)
  {
    PlainChars(key);
    WordFlat(k);
    FlatBalanced(k);
    CommaProper();
    ProperConcat(k, ",");
    ProperConcat(k + ",", v);
  }

  lemma {:induction false} ItemsProper(ty: AbiType, n: nat)
    requires ty.Tuple? && n <= |ty.items|
    ensures Proper(ShowItems(ty, n))
    decreases ty, 0, n
  {
    hide Show, Balanced, Depth;
    CommaProper();
    if n > 0 {
      ItemsProper(ty, n - 1);
      ShowBalanced(ty.items[n - 1].ty);
      BalancedIsProper(Show(ty.items[n - 1].ty));
      var comma := if n == 1 then "" else ",";
      ProperConcat(ShowItems(ty, n - 1), comma);
      ProperConcat(ShowItems(ty, n - 1) + comma, Show(ty.items[n - 1].ty));
    }
  }

  // ---------------------------------------------------------------- cutting at commas

  lemma {:induction false} CommaAt(p: string, b: string)
    ensures var a := p + "," + b; a[|p|] == ',' && a[..|p|] == p && a[|p| + 1..] == b
  {
  }

  /** A comma at depth zero cannot lie inside balanced text. */
  lemma {:induction false} CommaOutside(a: string, p: string, b: string)
    requires Balanced(a) && Proper(p)
    ensures a != p + "," + b
  {
    hide Depth;
    CommaAt(p, b);
  }

  /** If one of two last items is longer, it has a comma where the other one starts. */
  lemma {:induction false} LongerItem(p: string, a: string, q: string, b: string)
    requires p + "," + a == q + "," + b && |b| < |a|
    ensures var k := |a| - |b| - 1; a[k] == ',' && Depth(a[..k]) == Depth(a) - Depth(b)
  {
    var s := p + "," + a;
    var k := |a| - |b| - 1;
    CommaAt(p, a);
    CommaAt(q, b);
    assert a[k] == s[|q|];
    assert a[k + 1..] == s[|q| + 1..] == b;
    assert a == a[..k] + ("," + b);
    DepthConcat(a[..k], "," + b);
    DepthConcat(",", b);
    assert ","[..0] == "";
  }

  /** The last item of a list is determined by the text. */
  lemma {:induction false} LastItem(p: string, a: string, q: string, b: string)
    requires Balanced(a) && Balanced(b) && p + "," + a == q + "," + b
    ensures p == q && a == b
  {
    hide Depth;
    CommaAt(p, a);
    CommaAt(q, b);
    if |a| < |b| {
      LongerItem(q, b, p, a);
    } else if |b| < |a| {
      LongerItem(p, a, q, b);
    }
  }

  lemma {:induction false} LongerKey(k: string, v: string, k': string, v': string)
    requires k + "," + v == k' + "," + v' && |k| < |k'|
    ensures k'[|k|] == ','
  {
    CommaAt(k, v);
    assert k'[|k|] == (k' + "," + v')[|k|];
  }

  lemma {:induction false} PairCut(k: string, v: string, k': string, v': string)
    requires Flat(k) && Flat(k') && k + "," + v == k' + "," + v'
    ensures k == k' && v == v'
  {
    CommaAt(k, v);
    CommaAt(k', v');
    if |k| < |k'| {
      LongerKey(k, v, k', v');
    } else if |k'| < |k| {
      LongerKey(k', v', k, v);
    }
  }

  lemma {:induction false} EnclosedCut(open: string, a: string, b: string)
    requires open + a + ")" == open + b + ")"
    ensures a == b
  {
    var s := open + a + ")";
    assert a == s[|open|..|s| - 1] && b == s[|open|..|s| - 1];
  }

  // ---------------------------------------------------------------- which constructor printed it

  datatype Kind =
    | KUint | KInt | KVarUint | KVarInt | KBool | KCell | KAddress | KAddressStd | KBytes | KFixedBytes | KString | KToken
    | KTuple | KArray | KFixedArray | KMap | KOptional | KRef

  function KindOf(ty: AbiType): Kind {
    match ty
    case Uint(_) => KUint
    case Int(_) => KInt
    case VarUint(_) => KVarUint
    case VarInt(_) => KVarInt
    case Bool => KBool
    case CellType => KCell
    case Address => KAddress
    case AddressStd => KAddressStd
    case Bytes => KBytes
    case FixedBytes(_) => KFixedBytes
    case String => KString
    case Token => KToken
    case Tuple(_) => KTuple
    case Array(_) => KArray
    case FixedArray(_, _) => KFixedArray
    case Map(_, _) => KMap
    case Optional(_) => KOptional
    case Ref(_) => KRef
  }

  /** Constructor as told by the last character and a few of the first. */
  function KindOfText(s: string): Kind
    requires |s| >= 2
  {
    var first, last := s[0], s[|s| - 1];
    if last == ']' then (if s[|s| - 2] == '[' then KArray else KFixedArray)
    else if last == ')' then
      (if first == '(' then KTuple else if first == 'm' then KMap else if first == 'o' then KOptional else KRef)
    else if IsDigit(last) then
      (if first == 'u' then KUint else if first == 'i' then KInt
       else if first == 'f' then KFixedBytes else if |s| > 3 && s[3] == 'u' then KVarUint else KVarInt)
    else if first == 'b' then (if s[1] == 'o' then KBool else KBytes)
    else if first == 'c' then KCell
    else if first == 'a' then (if |s| == 7 then KAddress else KAddressStd)
    else if first == 's' then KString
    else KToken
  }

  lemma {:induction false} NumberedKind(word: string, n: nat, kind: Kind)
    requires |word| >= 3
    requires kind == if word[0] == 'u' then KUint else if word[0] == 'i' then KInt else if word[0] == 'f' then KFixedBytes
      else if |word| > 3 && word[3] == 'u' then KVarUint else KVarInt
    requires word[0] == 'u' || word[0] == 'i' || word[0] == 'f' || |word| > 3
    ensures |word + Decimal(n)| >= 2 && KindOfText(word + Decimal(n)) == kind
  {
    var s := word + Decimal(n);
    assert IsDigit(s[|s| - 1]);
  }

  lemma {:induction false} WordKind(ty: AbiType)
    requires IsWord(ty)
    ensures |ShowWord(ty)| >= 2 && KindOfText(ShowWord(ty)) == KindOf(ty)
  {
    hide Decimal, KindOfText;
    match ty {
      case Uint(n) => NumberedKind("uint", n, KUint);
      case Int(n) => NumberedKind("int", n, KInt);
      case VarUint(n) => NumberedKind("varuint", n, KVarUint);
      case VarInt(n) => NumberedKind("varint", n, KVarInt);
      case FixedBytes(n) => NumberedKind("fixedbytes", n, KFixedBytes);
      case _ => PlainWordKind(ty);
    }
  }

  lemma {:induction false} PlainWordKind(ty: AbiType)
    requires IsWord(ty) && !(ty.Uint? || ty.Int? || ty.VarUint? || ty.VarInt? || ty.FixedBytes?)
    ensures |ShowWord(ty)| >= 2 && KindOfText(ShowWord(ty)) == KindOf(ty)
  {
    hide Decimal;
  }

  lemma {:induction false} ShowKind(ty: AbiType)
    ensures |Show(ty)| >= 2 && KindOfText(Show(ty)) == KindOf(ty)
  {
    hide Decimal, ShowPlain, ShowItems, ShowWord;
    if IsWord(ty) { WordKind(ty); }
    if ty.FixedArray? { DigitsOnly(ty.len); }
  }

  // ---------------------------------------------------------------- signatures

  lemma {:induction false} ItemsEqual(a: AbiType, b: AbiType, n: nat, m: nat)
    requires a.Tuple? && b.Tuple? && n <= |a.items| && m <= |b.items| && ShowItems(a, n) == ShowItems(b, m)
    ensures n == m && forall i :: 0 <= i < n ==> SameTypes(a.items[i].ty, b.items[i].ty)
    decreases a, 0, n
  {
    hide Show, Balanced, Proper, SameTypes;
    if n > 0 { ShowBalanced(a.items[n - 1].ty); }
    if m > 0 { ShowBalanced(b.items[m - 1].ty); }
    if n > 1 && m > 1 {
      LastItem(ShowItems(a, n - 1), Show(a.items[n - 1].ty), ShowItems(b, m - 1), Show(b.items[m - 1].ty));
      ItemsEqual(a, b, n - 1, m - 1);
      TextTells(a.items[n - 1].ty, b.items[m - 1].ty);
    } else if n > 1 && m == 1 {
      ItemsProper(a, n - 1);
      CommaOutside(Show(b.items[0].ty), ShowItems(a, n - 1), Show(a.items[n - 1].ty));
    } else if n == 1 && m > 1 {
      ItemsProper(b, m - 1);
      CommaOutside(Show(a.items[0].ty), ShowItems(b, m - 1), Show(b.items[m - 1].ty));
    } else if n == 1 && m == 1 {
      assert "" + "" + Show(a.items[0].ty) == Show(a.items[0].ty) && "" + "" + Show(b.items[0].ty) == Show(b.items[0].ty);
      TextTells(a.items[0].ty, b.items[0].ty);
    }
  }

  /** Equal signatures belong to equal types. */
  lemma {:induction false} TextTells(a: AbiType, b: AbiType)
    requires Show(a) == Show(b)
    ensures SameTypes(a, b)
    decreases a, 1
  {
    hide Decimal, ShowPlain, ShowItems, ShowWord, KindOfText;
    ShowKind(a);
    ShowKind(b);
    match a {
      case Tuple(items) =>
        TupleCut(ShowItems(a, |a.items|), ShowItems(b, |b.items|));
        ItemsEqual(a, b, |a.items|, |b.items|);
      case Array(elem) =>
        assert Show(elem) == Show(a)[..|Show(a)| - 2] && Show(b.elem) == Show(b)[..|Show(b)| - 2];
        TextTells(elem, b.elem);
      case FixedArray(elem, n) =>
        ArrayCut(Show(elem), n, Show(b.elem), b.len);
        TextTells(elem, b.elem);
      case Map(key, value) =>
        MapCut(key, Show(value), b.key, Show(b.value));
        TextTells(value, b.value);
      case Optional(inner) =>
        EnclosedCut("optional(", Show(inner), Show(b.inner));
        TextTells(inner, b.inner);
      case Ref(inner) =>
        EnclosedCut("ref(", Show(inner), Show(b.inner));
        TextTells(inner, b.inner);
      case _ =>
        WordRoundTrip(a);
        WordRoundTrip(b);
    }
  }

  lemma {:induction false} TupleCut(a: string, b: string)
    requires "(" + a + ")" == "(" + b + ")"
    ensures a == b
  {
    EnclosedCut("(", a, b);
  }

  lemma {:induction false} BracketAt(x: string, digits: string)
    requires '[' !in digits
    ensures var body := x + "[" + digits;
      LastIndexOf(body, '[') == Some(|x|) && body[..|x|] == x && body[|x| + 1..] == digits
  {
    var body := x + "[" + digits;
    assert body[|x| + 1..] == digits;
    LastIndexIs(body, '[', |x|);
  }

  lemma {:induction false} ArrayCut(x: string, m: nat, y: string, n: nat)
    requires x + "[" + Decimal(m) + "]" == y + "[" + Decimal(n) + "]"
    ensures x == y && m == n
  {
    hide Decimal, LastIndexOf;
    DigitsOnly(m);
    DigitsOnly(n);
    BracketAt(x, Decimal(m));
    BracketAt(y, Decimal(n));
    SameLastCut(x + "[" + Decimal(m), y + "[" + Decimal(n), "]");
    DecimalInjective(m, n);
  }

  lemma {:induction false} SameLastCut(a: string, b: string, end: string)
    requires a + end == b + end
    ensures a == b
  {
    assert a == (a + end)[..|a|] && b == (b + end)[..|b|];
  }

  lemma {:induction false} MapCut(j: PlainAbiType, v: string, k: PlainAbiType, v': string)
    requires "map(" + ShowPlain(j) + "," + v + ")" == "map(" + ShowPlain(k) + "," + v' + ")"
    ensures j == k && v == v'
  {
    hide ShowPlain;
    var a, b := ShowPlain(j) + "," + v, ShowPlain(k) + "," + v';
    assert "map(" + a + ")" == "map(" + ShowPlain(j) + "," + v + ")";
    assert "map(" + b + ")" == "map(" + ShowPlain(k) + "," + v' + ")";
    EnclosedCut("map(", a, b);
    PlainChars(j);
    PlainChars(k);
    WordFlat(ShowPlain(j));
    WordFlat(ShowPlain(k));
    PairCut(ShowPlain(j), v, ShowPlain(k), v');
    PlainRoundTrip(j);
    PlainRoundTrip(k);
  }

  lemma {:induction false} SameText(a: AbiType, b: AbiType)
    requires SameTypes(a, b)
    ensures Show(a) == Show(b)
    decreases a, 1
  {
    hide Decimal, ShowPlain, ShowWord;
    match a {
      case Tuple(items) => SameItemsText(a, b, |items|);
      case Array(elem) => SameText(elem, b.elem);
      case FixedArray(elem, _) => SameText(elem, b.elem);
      case Map(_, value) => SameText(value, b.value);
      case Optional(inner) => SameText(inner, b.inner);
      case Ref(inner) => SameText(inner, b.inner);
      case _ =>
    }
  }

  lemma {:induction false} SameItemsText(a: AbiType, b: AbiType, n: nat)
    requires a.Tuple? && b.Tuple? && n <= |a.items| && n <= |b.items|
    requires forall i :: 0 <= i < n ==> SameTypes(a.items[i].ty, b.items[i].ty)
    ensures ShowItems(a, n) == ShowItems(b, n)
    decreases a, 0, n
  {
    hide Show, SameTypes;
    if n > 0 {
      SameItemsText(a, b, n - 1);
      SameText(a.items[n - 1].ty, b.items[n - 1].ty);
    }
  }

  /** Signatures agree exactly when the types do, names aside. */
  lemma {:induction false} SignatureUnambiguous(a: AbiType, b: AbiType)
    ensures Show(a) == Show(b) <==> SameTypes(a, b)
  {
    hide Show, SameTypes;
    if Show(a) == Show(b) { TextTells(a, b); }
    if SameTypes(a, b) { SameText(a, b); }
  }
}
