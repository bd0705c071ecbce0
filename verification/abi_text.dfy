/** The text of a full signature, as a grammar on strings, independent of the printer. */
module AbiText {
  import opened Cells
  import opened AbiTypes
  import opened AbiSpelling

  /** Decimal digits of a number without leading zeros. */
  predicate IsDecimal(d: string, n: nat) {
    d != "" && AllDigits(d) && DigitsValue(d) == n && (d[0] == '0' ==> |d| == 1)
  }

  lemma {:induction false} FirstDigitCounts(d: string)
    requires d != "" && AllDigits(d)
    ensures DigitsValue(d) >= 0 && (d[0] != '0' ==> DigitsValue(d) >= 1)
  {
    if |d| > 1 {
      FirstDigitCounts(d[1..]);
      PowPositive(|d| - 1);
      var v := d[0] as int - '0' as int;
      assert v * Pow10(|d| - 1) >= 0 && (v >= 1 ==> v * Pow10(|d| - 1) >= 1);
    } else {
      assert d[1..] == "";
    }
  }

  lemma {:induction false} PowPositive(n: nat)
    ensures Pow10(n) >= 1
  {
    if n != 0 { PowPositive(n - 1); }
  }

  /** The printer of numbers. */
  lemma {:induction false} DecimalIff(d: string, n: nat)
    ensures d == Decimal(n) <==> IsDecimal(d, n)
    decreases n
  {
    DecimalIs(n);
    if IsDecimal(d, n) {
      var k := |d| - 1;
      DigitsLast(d);
      var front, last := d[..k], d[k] as int - '0' as int;
      if k == 0 {
        assert front == "" && n == last && d == [Digit(n)];
      } else {
        FirstDigitCounts(front);
        assert IsDecimal(front, n / 10);
        DecimalIff(front, n / 10);
        assert d == front + [d[k]] && d[k] == Digit(n % 10);
      }
    }
  }

  lemma {:induction false} DecimalIs(n: nat)
    ensures IsDecimal(Decimal(n), n)
  {
    var d := Decimal(n);
    if n < 10 {
      assert d[1..] == "" && DigitsValue(d) == n * Pow10(0);
    } else {
      DecimalIs(n / 10);
      DigitsLast(d);
      assert d[..|d| - 1] == Decimal(n / 10);
    }
  }

  function Joined(parts: seq<string>): string {
    if parts == [] then "" else if |parts| == 1 then parts[0] else parts[0] + "," + Joined(parts[1..])
  }

  lemma {:induction false} JoinedLast(parts: seq<string>)
    requires |parts| > 1
    ensures Joined(parts) == Joined(parts[..|parts| - 1]) + "," + parts[|parts| - 1]
  {
    var n := |parts| - 1;
    if n > 1 {
      JoinedLast(parts[1..]);
      assert parts[1..][..n - 1] == parts[..n][1..];
    }
  }

  ghost predicate NumberedText(s: string, word: string, n: nat) { word <= s && IsDecimal(s[|word|..], n) }

  ghost predicate PlainText(s: string, p: PlainAbiType) {
    match p
    case PlainUint(n) => NumberedText(s, "uint", n)
    case PlainInt(n) => NumberedText(s, "int", n)
    case PlainBool => s == "bool"
    case PlainAddress => s == "address"
    case PlainAddressStd => s == "address_std"
    case PlainFixedBytes(n) => NumberedText(s, "fixedbytes", n)
  }

  /** `s` is the signature of `ty`. */
  ghost predicate Text(s: string, ty: AbiType)
    decreases ty
  {
    match ty
    case Uint(n) => NumberedText(s, "uint", n)
    case Int(n) => NumberedText(s, "int", n)
    case VarUint(n) => NumberedText(s, "varuint", n)
    case VarInt(n) => NumberedText(s, "varint", n)
    case Bool => s == "bool"
    case CellType => s == "cell"
    case Address => s == "address"
    case AddressStd => s == "address_std"
    case Bytes => s == "bytes"
    case FixedBytes(n) => NumberedText(s, "fixedbytes", n)
    case String => s == "string"
    case Token => s == "gram"
    case Tuple(items) =>
      exists parts: seq<string> ::
        && |parts| == |items| && s == "(" + Joined(parts) + ")"
        && forall i :: 0 <= i < |items| ==> Text(parts[i], items[i].ty)
    case Array(elem) => exists x: string :: s == x + "[]" && Text(x, elem)
    case FixedArray(elem, n) => exists x: string, d: string :: s == x + "[" + d + "]" && Text(x, elem) && IsDecimal(d, n)
    case Map(key, value) => exists x: string, y: string :: s == "map(" + x + "," + y + ")" && PlainText(x, key) && Text(y, value)
    case Optional(inner) => exists x: string :: s == "optional(" + x + ")" && Text(x, inner)
    case Ref(inner) => exists x: string :: s == "ref(" + x + ")" && Text(x, inner)
  }

  lemma {:induction false} NumberedIff(s: string, word: string, n: nat)
    ensures s == word + Decimal(n) <==> NumberedText(s, word, n)
  {
    hide Decimal, IsDecimal;
    DecimalIff(Decimal(n), n);
    if word <= s {
      DecimalIff(s[|word|..], n);
      assert s == word + s[|word|..];
    }
    assert (word + Decimal(n))[|word|..] == Decimal(n);
  }

  lemma {:induction false} PlainTextIff(s: string, p: PlainAbiType)
    ensures s == ShowPlain(p) <==> PlainText(s, p)
  {
    hide Decimal, NumberedText;
    match p {
      case PlainUint(n) => NumberedIff(s, "uint", n);
      case PlainInt(n) => NumberedIff(s, "int", n);
      case PlainFixedBytes(n) => NumberedIff(s, "fixedbytes", n);
      case _ =>
    }
  }

  lemma {:induction false} WordTextIff(s: string, ty: AbiType)
    requires IsWord(ty)
    ensures s == ShowWord(ty) <==> Text(s, ty)
  {
    hide Decimal, NumberedText;
    match ty {
      case Uint(n) => NumberedIff(s, "uint", n);
      case Int(n) => NumberedIff(s, "int", n);
      case VarUint(n) => NumberedIff(s, "varuint", n);
      case VarInt(n) => NumberedIff(s, "varint", n);
      case FixedBytes(n) => NumberedIff(s, "fixedbytes", n);
      case _ =>
    }
  }

  /** The texts of the items of a tuple, as the printer writes them. */
  function ItemTexts(ty: AbiType): (parts: seq<string>)
    requires ty.Tuple?
    ensures |parts| == |ty.items|
  {
    seq(|ty.items|, i requires 0 <= i < |ty.items| => Show(ty.items[i].ty))
  }

  lemma {:induction false} ItemsJoined(ty: AbiType, n: nat)
    requires ty.Tuple? && n <= |ty.items|
    ensures ShowItems(ty, n) == Joined(ItemTexts(ty)[..n])
  {
    hide Show;
    var parts := ItemTexts(ty);
    if n > 0 {
      ItemsJoined(ty, n - 1);
      assert parts[..n][..n - 1] == parts[..n - 1] && parts[..n][n - 1] == Show(ty.items[n - 1].ty);
      if n > 1 { JoinedLast(parts[..n]); } else { assert parts[..1] == [parts[0]] && parts[..0] == []; }
    }
  }

  lemma {:induction false} TupleIff(s: string, ty: AbiType)
    requires ty.Tuple?
    requires forall i, x: string :: 0 <= i < |ty.items| ==> (x == Show(ty.items[i].ty) <==> Text(x, ty.items[i].ty))
    ensures s == Show(ty) <==> Text(s, ty)
  {
    hide ShowItems, Joined;
    var shown := ItemTexts(ty);
    ItemsJoined(ty, |ty.items|);
    assert shown[..|ty.items|] == shown;
    assert forall i :: 0 <= i < |ty.items| ==> Text(shown[i], ty.items[i].ty);
    if Text(s, ty) {
      var parts: seq<string> :| |parts| == |ty.items| && s == "(" + Joined(parts) + ")"
        && forall i :: 0 <= i < |ty.items| ==> Text(parts[i], ty.items[i].ty);
      assert parts == shown;
    }
  }

  /** The printer writes exactly the signature of a type. */
  lemma {:induction false} ShowIff(s: string, ty: AbiType)
    ensures s == Show(ty) <==> Text(s, ty)
    decreases ty
  {
    hide Show, Text, PlainText, Decimal, IsDecimal, ShowPlain, ShowWord;
    match ty {
      case Tuple(items) =>
        forall i, x: string | 0 <= i < |items|
          ensures x == Show(items[i].ty) <==> Text(x, items[i].ty)
        {
          ShowIff(x, items[i].ty);
        }
        TupleIff(s, ty);
      case Array(elem) =>
        forall x: string ensures x == Show(elem) <==> Text(x, elem) { ShowIff(x, elem); }
        NestedIff(s, ty);
      case FixedArray(elem, n) =>
        forall x: string ensures x == Show(elem) <==> Text(x, elem) { ShowIff(x, elem); }
        forall d: string ensures d == Decimal(n) <==> IsDecimal(d, n) { DecimalIff(d, n); }
        NestedIff(s, ty);
      case Map(key, value) =>
        forall x: string ensures x == Show(value) <==> Text(x, value) { ShowIff(x, value); }
        forall x: string ensures x == ShowPlain(key) <==> PlainText(x, key) { PlainTextIff(x, key); }
        NestedIff(s, ty);
      case Optional(inner) =>
        forall x: string ensures x == Show(inner) <==> Text(x, inner) { ShowIff(x, inner); }
        NestedIff(s, ty);
      case Ref(inner) =>
        forall x: string ensures x == Show(inner) <==> Text(x, inner) { ShowIff(x, inner); }
        NestedIff(s, ty);
      case _ =>
        WordTextIff(s, ty);
        ShowOfWord(ty);
    }
  }

  lemma {:induction false} ShowOfWord(ty: AbiType)
    requires IsWord(ty)
    ensures Show(ty) == ShowWord(ty)
  {
    hide ShowWord;
  }

  /** Texts of parts that are known make up the text of the whole. */
  lemma {:induction false} NestedIff(s: string, ty: AbiType)
    requires !ty.Tuple? && !IsWord(ty)
    requires ty.Array? || ty.FixedArray? ==> forall x: string :: x == Show(ty.elem) <==> Text(x, ty.elem)
    requires ty.FixedArray? ==> forall d: string :: d == Decimal(ty.len) <==> IsDecimal(d, ty.len)
    requires ty.Map? ==> forall x: string :: x == Show(ty.value) <==> Text(x, ty.value)
    requires ty.Map? ==> forall x: string :: x == ShowPlain(ty.key) <==> PlainText(x, ty.key)
    requires ty.Optional? || ty.Ref? ==> forall x: string :: x == Show(ty.inner) <==> Text(x, ty.inner)
    ensures s == Show(ty) <==> Text(s, ty)
  {
    hide PlainText, Decimal, IsDecimal, ShowPlain;
    match ty {
      case Array(elem) =>
        var shown := Show(elem);
        assert Text(shown, elem);
        assert Show(ty) == shown + "[]";
      case FixedArray(elem, n) =>
        var shown, digits := Show(elem), Decimal(n);
        assert Text(shown, elem) && IsDecimal(digits, n);
        assert Show(ty) == shown + "[" + digits + "]";
      case Map(key, value) =>
        var shown, plain := Show(value), ShowPlain(key);
        assert Text(shown, value) && PlainText(plain, key);
        assert Show(ty) == "map(" + plain + "," + shown + ")";
      case Optional(inner) =>
        var shown := Show(inner);
        assert Text(shown, inner);
        assert Show(ty) == "optional(" + shown + ")";
      case Ref(inner) =>
        var shown := Show(inner);
        assert Text(shown, inner);
        assert Show(ty) == "ref(" + shown + ")";
    }
  }
}
