/** The JSON form of ABI types can be read back, and signatures tell types apart. */
module AbiRoundTrip {
  import opened Cells
  import opened AbiTypes

  // ---------------------------------------------------------------- components

  /** The items of the tuple inside a type, if there is one. */
  function Components(ty: AbiType): Option<seq<NamedAbiType>> {
    match ty
    case Tuple(items) => Some(items)
    case Array(elem) => Components(elem)
    case FixedArray(elem, _) => Components(elem)
    case Map(_, value) => Components(value)
    case Optional(inner) => Components(inner)
    case Ref(inner) => Components(inner)
    case _ => None
  }

  /** The type with the items of its tuple replaced. */
  function WithComponents(ty: AbiType, items: seq<NamedAbiType>): AbiType {
    match ty
    case Tuple(_) => Tuple(items)
    case Array(elem) => Array(WithComponents(elem, items))
    case FixedArray(elem, n) => FixedArray(WithComponents(elem, items), n)
    case Map(key, value) => Map(key, WithComponents(value, items))
    case Optional(inner) => Optional(WithComponents(inner, items))
    case Ref(inner) => Ref(WithComponents(inner, items))
    case _ => ty
  }

  lemma {:induction false} ComponentsBack(ty: AbiType)
    ensures Components(WithComponents(ty, [])) == (if Components(ty).Some? then Some([]) else None)
    ensures Components(ty).Some? ==> WithComponents(WithComponents(ty, []), Components(ty).value) == ty
    ensures Components(ty).None? ==> WithComponents(ty, []) == ty
  {
    match ty {
      case Array(elem) => ComponentsBack(elem);
      case FixedArray(elem, _) => ComponentsBack(elem);
      case Map(_, value) => ComponentsBack(value);
      case Optional(inner) => ComponentsBack(inner);
      case Ref(inner) => ComponentsBack(inner);
      case _ =>
    }
  }

  // ---------------------------------------------------------------- finding separators

  lemma {:induction false} LastIndexIs(s: string, c: char, at: nat)
    requires at < |s| && s[at] == c && c !in s[at + 1..]
    ensures LastIndexOf(s, c) == Some(at)
  {
    var n := |s| - 1;
    if at < n {
      assert s[n] == s[at + 1..][n - at - 1];
      assert s[..n][at + 1..] == s[at + 1..][..n - at - 1];
      LastIndexIs(s[..n], c, at);
    }
  }

  lemma {:induction false} FirstIndexIs(s: string, c: char, at: nat)
    requires at < |s| && s[at] == c && c !in s[..at]
    ensures FirstIndexOf(s, c) == Some(at)
  {
    if at > 0 {
      assert s[0] == s[..at][0];
      assert s[1..][..at - 1] == s[..at][1..];
      FirstIndexIs(s[1..], c, at - 1);
    }
  }

  // ---------------------------------------------------------------- words

  predicate IsDigit(c: char) { '0' <= c <= '9' }

  lemma {:induction false} NumberedWord(word: string, n: nat)
    ensures var s := word + Decimal(n); EndsInDigit(s) && s[|word|..] == Decimal(n) && StartsWith(s, word)
    ensures word != "" ==> (word + Decimal(n))[0] == word[0]
    ensures |word| > 3 ==> (word + Decimal(n))[3] == word[3]
  {
  }

  predicate EndsInDigit(s: string) { s != "" && IsDigit(s[|s| - 1]) }

  /** What a numbered word is parsed as depends on its first letters only. */
  lemma {:induction false} ParseNumbered(s: string)
    requires EndsInDigit(s)
    ensures StartsWith(s, "uint") ==>
      ParseWord(s) == var n := ParseUint(s[4..], U16_BOUND); if n.None? then Err(InvalidBitLen) else Ok(Uint(n.value))
    ensures StartsWith(s, "int") ==>
      ParseWord(s) == var n := ParseUint(s[3..], U16_BOUND); if n.None? then Err(InvalidBitLen) else Ok(Int(n.value))
    ensures StartsWith(s, "fixedbytes") ==>
      ParseWord(s) == var n := ParseUint(s[10..], U64_BOUND); if n.None? then Err(InvalidByteLen) else Ok(FixedBytes(n.value))
  {
    hide ParseUint;
    if StartsWith(s, "int") { assert s[0] == "int"[0]; }
    if StartsWith(s, "fixedbytes") { assert s[0] == "fixedbytes"[0]; }
  }

  lemma {:induction false} ParseVarNumbered(s: string)
    requires EndsInDigit(s)
    ensures StartsWith(s, "varuint") ==>
      ParseWord(s) == var n := ParseUint(s[7..], 0x100);
        if n.None? || n.value == 0 then Err(InvalidByteLen) else Ok(VarUint(n.value))
    ensures StartsWith(s, "varint") ==>
      ParseWord(s) == var n := ParseUint(s[6..], 0x100);
        if n.None? || n.value == 0 then Err(InvalidByteLen) else Ok(VarInt(n.value))
  {
    hide ParseUint;
    if StartsWith(s, "varuint") { assert s[0] == "varuint"[0]; }
    if StartsWith(s, "varint") { assert s[0] == "varint"[0] && s[3] == "varint"[3]; }
  }

  lemma {:induction false} ParsePlainNumbered(s: string)
    requires EndsInDigit(s)
    ensures StartsWith(s, "uint") ==>
      ParsePlain(s) == var n := ParseUint(s[4..], U16_BOUND); if n.None? then Err(InvalidBitLen) else Ok(PlainUint(n.value))
    ensures StartsWith(s, "int") ==>
      ParsePlain(s) == var n := ParseUint(s[3..], U16_BOUND); if n.None? then Err(InvalidBitLen) else Ok(PlainInt(n.value))
    ensures StartsWith(s, "fixedbytes") ==>
      ParsePlain(s) == var n := ParseUint(s[10..], U64_BOUND); if n.None? then Err(InvalidByteLen) else Ok(PlainFixedBytes(n.value))
  {
    hide ParseUint;
    if StartsWith(s, "int") { assert s[0] == "int"[0]; }
    if StartsWith(s, "fixedbytes") { assert s[0] == "fixedbytes"[0]; }
  }

  /** Words read back as what they are. */
  lemma {:induction false} WordRoundTrip(ty: AbiType)
    requires IsWord(ty)
    ensures ParseWord(ShowWord(ty)) == Ok(ty)
  {
    if ty.Uint? || ty.Int? || ty.VarUint? || ty.VarInt? || ty.FixedBytes? { NumberedRoundTrip(ty); } else { PlainWordRoundTrip(ty); }
  }

  lemma {:induction false} PlainWordRoundTrip(ty: AbiType)
    requires IsWord(ty) && !(ty.Uint? || ty.Int? || ty.VarUint? || ty.VarInt? || ty.FixedBytes?)
    ensures ParseWord(ShowWord(ty)) == Ok(ty)
  {
    hide ParseUint, StartsWith;
  }

  lemma {:induction false} NumberedRoundTrip(ty: AbiType)
    requires ty.Uint? || ty.Int? || ty.VarUint? || ty.VarInt? || ty.FixedBytes?
    ensures ParseWord(ShowWord(ty)) == Ok(ty)
  {
    hide Decimal, ParseUint, ParseWord, EndsInDigit, StartsWith;
    match ty {
      case Uint(n) =>
        NumberedWord("uint", n);
        ParseNumbered("uint" + Decimal(n));
        ParseUintDecimal(n, U16_BOUND);
      case Int(n) =>
        NumberedWord("int", n);
        ParseNumbered("int" + Decimal(n));
        ParseUintDecimal(n, U16_BOUND);
      case VarUint(n) =>
        NumberedWord("varuint", n);
        ParseVarNumbered("varuint" + Decimal(n));
        ParseUintDecimal(n, 0x100);
      case VarInt(n) =>
        NumberedWord("varint", n);
        ParseVarNumbered("varint" + Decimal(n));
        ParseUintDecimal(n, 0x100);
      case FixedBytes(n) =>
        NumberedWord("fixedbytes", n);
        ParseNumbered("fixedbytes" + Decimal(n));
        ParseUintDecimal(n, U64_BOUND);
    }
  }

  lemma {:induction false} PlainRoundTrip(p: PlainAbiType)
    ensures ParsePlain(ShowPlain(p)) == Ok(p)
  {
    hide Decimal, ParseUint, EndsInDigit, StartsWith;
    match p {
      case PlainUint(n) =>
        NumberedWord("uint", n);
        ParsePlainNumbered("uint" + Decimal(n));
        ParseUintDecimal(n, U16_BOUND);
      case PlainInt(n) =>
        NumberedWord("int", n);
        ParsePlainNumbered("int" + Decimal(n));
        ParseUintDecimal(n, U16_BOUND);
      case PlainFixedBytes(n) =>
        NumberedWord("fixedbytes", n);
        ParsePlainNumbered("fixedbytes" + Decimal(n));
        ParseUintDecimal(n, U64_BOUND);
      case _ =>
    }
  }

  /** Letters, digits and underscores. */
  predicate IsWordChar(c: char) { 'a' <= c <= 'z' || IsDigit(c) || c == '_' }

  predicate AllWordChars(s: string) { forall i :: 0 <= i < |s| ==> IsWordChar(s[i]) }

  lemma {:induction false} WordChars(ty: AbiType)
    requires IsWord(ty)
    ensures AllWordChars(ShowWord(ty)) && ShowWord(ty) != ""
  {
  }

  lemma {:induction false} PlainChars(p: PlainAbiType)
    ensures AllWordChars(ShowPlain(p)) && ShowPlain(p) != ""
  {
  }

  // ---------------------------------------------------------------- the short form

  lemma {:induction false} WordParses(s: string)
    requires AllWordChars(s) && s != ""
    ensures ParseSimple(s) == ParseWord(s)
  {
    hide ParseWord;
    assert IsWordChar(s[|s| - 1]);
    if |s| > 3 { assert IsWordChar(s[3]); }
    if |s| > 8 { assert IsWordChar(s[8]); }
  }

  lemma {:induction false} ArrayParses(elem: string, digits: string)
    requires '[' !in digits
    ensures var s := elem + "[" + digits + "]"; var len := ParseUint(digits, U64_BOUND);
      ParseSimple(s) ==
        if digits != "" && len.None? then Err(InvalidArrayLength)
        else
          var inner := ParseSimple(elem);
          if inner.Err? then inner else Ok(if digits == "" then Array(inner.value) else FixedArray(inner.value, len.value))
  {
    hide ParseUint, ParseWord;
    var s := elem + "[" + digits + "]";
    var body := elem + "[" + digits;
    assert s[..|s| - 1] == body;
    assert body[|elem| + 1..] == digits && body[..|elem|] == elem;
    LastIndexIs(body, '[', |elem|);
  }

  lemma {:induction false} EnclosedParses(open: string, inner: string)
    ensures var s := open + inner + ")"; StartsWith(s, open) && Unwrap(s, open) == Ok(inner) && !EndsWith(s, ']')
  {
    var s := open + inner + ")";
    assert s[|open|..] == inner + ")";
  }

  lemma {:induction false} MapParses(key: PlainAbiType, value: string)
    ensures var inner := ParseSimple(value);
      ParseSimple("map(" + ShowPlain(key) + "," + value + ")") ==
        if inner.Err? then inner else Ok(Map(key, inner.value))
  {
    hide ParseUint, ParseWord, ShowPlain, ParsePlain;
    var k := ShowPlain(key);
    var inner := k + "," + value;
    var s := "map(" + k + "," + value + ")";
    assert s == "map(" + inner + ")";
    EnclosedParses("map(", inner);
    PlainChars(key);
    assert inner[..|k|] == k && inner[|k| + 1..] == value && ',' !in k;
    FirstIndexIs(inner, ',', |k|);
    PlainRoundTrip(key);
  }

  lemma {:induction false} OptionalParses(value: string)
    ensures var inner := ParseSimple(value);
      ParseSimple("optional(" + value + ")") == if inner.Err? then inner else Ok(Optional(inner.value))
  {
    hide ParseUint, ParseWord, ParsePlain;
    var s := "optional(" + value + ")";
    EnclosedParses("optional(", value);
    assert s[0] == 'o';
  }

  lemma {:induction false} RefParses(value: string)
    ensures var inner := ParseSimple(value);
      ParseSimple("ref(" + value + ")") == if inner.Err? then inner else Ok(Ref(inner.value))
  {
    hide ParseUint, ParseWord, ParsePlain;
    var s := "ref(" + value + ")";
    EnclosedParses("ref(", value);
    assert s[0] == 'r';
  }

  /** The short form reads back as the type without its tuple items. */
  lemma {:induction false} SimpleRoundTrip(ty: AbiType)
    ensures ParseSimple(ShowSimple(ty)) == Ok(WithComponents(ty, []))
  {
    hide ParseSimple, ParseUint, ParseWord, ParsePlain, Decimal, ShowPlain, ShowWord;
    match ty {
      case Tuple(_) =>
        WordParses("tuple");
        TupleWord();
      case Array(elem) =>
        SimpleRoundTrip(elem);
        ArrayParses(ShowSimple(elem), "");
        assert ShowSimple(elem) + "[" + "" + "]" == ShowSimple(elem) + "[]";
      case FixedArray(elem, n) =>
        SimpleRoundTrip(elem);
        DigitsOnly(n);
        ParseUintDecimal(n, U64_BOUND);
        ArrayParses(ShowSimple(elem), Decimal(n));
      case Map(key, value) =>
        SimpleRoundTrip(value);
        MapParses(key, ShowSimple(value));
      case Optional(inner) =>
        SimpleRoundTrip(inner);
        OptionalParses(ShowSimple(inner));
      case Ref(inner) =>
        SimpleRoundTrip(inner);
        RefParses(ShowSimple(inner));
      case _ =>
        WordChars(ty);
        WordParses(ShowWord(ty));
        WordRoundTrip(ty);
    }
  }

  lemma {:induction false} TupleWord()
    ensures ParseWord("tuple") == Ok(Tuple([]))
  {
  }

  lemma {:induction false} DigitsOnly(n: nat)
    ensures Decimal(n) != "" && '[' !in Decimal(n)
  {
  }

  // ---------------------------------------------------------------- JSON

  datatype Json = Json(name: string, ty: string, components: JsonItems)

  datatype JsonItems = Absent | Present(items: seq<Json>)

  datatype JsonError = InvalidType(error: ParseError) | ExpectedComponents | UnexpectedComponents

  lemma {:induction false} ComponentsSmaller(ty: AbiType, i: nat)
    requires Components(ty).Some? && i < |Components(ty).value|
    ensures ty decreases to Components(ty).value[i]
  {
    match ty {
      case Tuple(items) =>
      case Array(elem) => ComponentsSmaller(elem, i);
      case FixedArray(elem, _) => ComponentsSmaller(elem, i);
      case Map(_, value) => ComponentsSmaller(value, i);
      case Optional(inner) => ComponentsSmaller(inner, i);
      case Ref(inner) => ComponentsSmaller(inner, i);
    }
  }

  function ToJson(item: NamedAbiType): Json {
    var items := Components(item.ty);
    Json(item.name, ShowSimple(item.ty),
         if items.None? then Absent
         else Present(seq(|items.value|, i requires 0 <= i < |items.value| =>
                ComponentsSmaller(item.ty, i); ToJson(items.value[i]))))
  }

  function FromJson(j: Json): Result<NamedAbiType, JsonError>
    decreases j, 0
  {
    match ParseSimple(j.ty)
    case Err(e) => Err(InvalidType(e))
    case Ok(ty) =>
      if Components(ty).Some? && j.components.Absent? then Err(ExpectedComponents)
      else if Components(ty).None? && j.components.Present? then Err(UnexpectedComponents)
      else if j.components.Absent? then Ok(NamedAbiType(j.name, ty))
      else
        match FromJsonItems(j, |j.components.items|)
        case Err(e) => Err(e)
        case Ok(items) => Ok(NamedAbiType(j.name, WithComponents(ty, items)))
  }

  /** The first `n` components, or the first error among them. */
  function FromJsonItems(j: Json, n: nat): Result<seq<NamedAbiType>, JsonError>
    requires j.components.Present? && n <= |j.components.items|
    decreases j, 0, n
  {
    if n == 0 then Ok([])
    else
      match FromJsonItems(j, n - 1)
      case Err(e) => Err(e)
      case Ok(items) =>
        match FromJson(j.components.items[n - 1])
        case Err(e) => Err(e)
        case Ok(item) => Ok(items + [item])
  }

  /** Every named type survives its JSON form. */
  lemma {:induction false} JsonRoundTrip(item: NamedAbiType)
    ensures FromJson(ToJson(item)) == Ok(item)
    decreases item, 0
  {
    hide ParseSimple, ShowSimple;
    SimpleRoundTrip(item.ty);
    ComponentsBack(item.ty);
    if Components(item.ty).Some? {
      ItemsRoundTrip(item, |Components(item.ty).value|);
      var items := Components(item.ty).value;
      assert items[..|items|] == items;
    }
  }

  lemma {:induction false} ItemsRoundTrip(item: NamedAbiType, n: nat)
    requires Components(item.ty).Some? && n <= |Components(item.ty).value|
    ensures FromJsonItems(ToJson(item), n) == Ok(Components(item.ty).value[..n])
    decreases item, 0, n
  {
    hide ParseSimple, ShowSimple;
    if n > 0 {
      var items := Components(item.ty).value;
      ItemsRoundTrip(item, n - 1);
      ComponentsSmaller(item.ty, n - 1);
      JsonRoundTrip(items[n - 1]);
      assert items[..n] == items[..n - 1] + [items[n - 1]];
    }
  }
}
