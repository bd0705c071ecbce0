/** Which strings the parser of ABI types accepts, and as what: a grammar on strings, independent of the parser. */
module AbiSpelling {
  import opened Cells
  import opened AbiTypes
  import opened AbiRoundTrip

  // ---------------------------------------------------------------- numbers

  function Pow10(n: nat): nat { if n == 0 then 1 else 10 * Pow10(n - 1) }

  predicate AllDigits(s: string) { forall i :: 0 <= i < |s| ==> '0' <= s[i] <= '9' }

  /** The number that decimal digits spell. */
  function DigitsValue(s: string): int
  {
    if s == "" then 0 else (s[0] as int - '0' as int) * Pow10(|s| - 1) + DigitsValue(s[1..])
  }

  /** A number: decimal digits, with an optional plus sign. */
  ghost predicate SpellsNumber(d: string, n: nat, bound: nat) {
    n < bound && exists t: string :: (d == t || d == "+" + t) && t != "" && AllDigits(t) && DigitsValue(t) == n
  }

  lemma {:induction false} DigitsLast(s: string)
    requires s != ""
    ensures DigitsValue(s) == 10 * DigitsValue(s[..|s| - 1]) + (s[|s| - 1] as int - '0' as int)
  {
    var n := |s| - 1;
    if n > 0 {
      DigitsLast(s[1..]);
      assert s[1..][..n - 1] == s[..n][1..];
      var v := s[0] as int - '0' as int;
      assert 10 * (v * Pow10(n - 1)) == v * Pow10(n);
    } else {
      assert s[..0] == "" && s[1..] == "";
    }
  }

  lemma {:induction false} DigitsIff(s: string)
    ensures ParseDigits(s).Some? <==> AllDigits(s)
    ensures AllDigits(s) ==> ParseDigits(s).value == DigitsValue(s)
  {
    if s != "" {
      var n := |s| - 1;
      DigitsIff(s[..n]);
      DigitsLast(s);
      assert AllDigits(s) ==> AllDigits(s[..n]);
      assert AllDigits(s[..n]) && '0' <= s[n] <= '9' ==> AllDigits(s);
    }
  }

  lemma {:induction false} NumberIff(d: string, n: nat, bound: nat)
    ensures ParseUint(d, bound) == Some(n) <==> SpellsNumber(d, n, bound)
  {
    hide ParseDigits, DigitsValue;
    var digits := if |d| > 1 && d[0] == '+' then d[1..] else d;
    DigitsIff(digits);
    assert d == digits || d == "+" + digits;
    forall t: string | (d == t || d == "+" + t) && t != "" && AllDigits(t)
      ensures t == digits
    {
    }
  }

  /** A word in front of a number. */
  ghost predicate SpellsNumbered(s: string, word: string, n: nat, bound: nat) {
    word <= s && SpellsNumber(s[|word|..], n, bound)
  }

  // ---------------------------------------------------------------- types

  ghost predicate SpellsPlain(s: string, p: PlainAbiType) {
    match p
    case PlainUint(n) => SpellsNumbered(s, "uint", n, 0x1_0000)
    case PlainInt(n) => SpellsNumbered(s, "int", n, 0x1_0000)
    case PlainBool => s == "bool"
    case PlainAddress => s == "address"
    case PlainAddressStd => s == "address_std"
    case PlainFixedBytes(n) => SpellsNumbered(s, "fixedbytes", n, 0x1_0000_0000_0000_0000)
  }

  ghost predicate SpellsWord(s: string, ty: AbiType) {
    match ty
    case Uint(n) => SpellsNumbered(s, "uint", n, 0x1_0000)
    case Int(n) => SpellsNumbered(s, "int", n, 0x1_0000)
    case VarUint(n) => SpellsNumbered(s, "varuint", n, 0x100)
    case VarInt(n) => SpellsNumbered(s, "varint", n, 0x100)
    case Bool => s == "bool"
    case CellType => s == "cell"
    case Address => s == "address"
    case AddressStd => s == "address_std"
    case Bytes => s == "bytes"
    case FixedBytes(n) => SpellsNumbered(s, "fixedbytes", n, 0x1_0000_0000_0000_0000)
    case String => s == "string"
    case Token => s == "gram" || s == "token"
    case Tuple(items) => items == [] && s == "tuple"
    case _ => false
  }

  /** The text of a type: a tuple is a word without its items. */
  ghost predicate Spells(s: string, ty: AbiType)
    decreases ty
  {
    match ty
    case Array(elem) => exists x: string :: s == x + "[]" && Spells(x, elem)
    case FixedArray(elem, n) =>
      exists x: string, d: string :: s == x + "[" + d + "]" && Spells(x, elem) && SpellsNumber(d, n, 0x1_0000_0000_0000_0000)
    case Map(key, value) =>
      exists x: string, y: string :: s == "map(" + x + "," + y + ")" && SpellsPlain(x, key) && Spells(y, value)
    case Optional(inner) => exists x: string :: s == "optional(" + x + ")" && Spells(x, inner)
    case Ref(inner) => exists x: string :: s == "ref(" + x + ")" && Spells(x, inner)
    case _ => SpellsWord(s, ty)
  }

  /** The first letters keep the numbered words apart. */
  lemma {:induction false} FirstLetters(s: string)
    ensures "uint" <= s ==> s[0] == 'u' && |s| >= 4
    ensures "int" <= s ==> s[0] == 'i' && |s| >= 3
    ensures "varuint" <= s ==> s[0] == 'v' && |s| >= 7 && s[3] == 'u'
    ensures "varint" <= s ==> s[0] == 'v' && |s| >= 6 && s[3] == 'i'
    ensures "fixedbytes" <= s ==> s[0] == 'f' && |s| >= 10
  {
  }

  lemma {:induction false} PlainIff(s: string, p: PlainAbiType)
    ensures ParsePlain(s) == Ok(p) <==> SpellsPlain(s, p)
  {
    hide ParseUint, SpellsNumber;
    FirstLetters(s);
    if "uint" <= s && p.PlainUint? { NumberIff(s[4..], p.bits, 0x1_0000); }
    if "int" <= s && p.PlainInt? { NumberIff(s[3..], p.bits, 0x1_0000); }
    if "fixedbytes" <= s && p.PlainFixedBytes? { NumberIff(s[10..], p.size, 0x1_0000_0000_0000_0000); }
  }

  lemma {:induction false} WordIff(s: string, ty: AbiType)
    ensures ParseWord(s) == Ok(ty) <==> SpellsWord(s, ty)
  {
    hide ParseUint, SpellsNumber;
    FirstLetters(s);
    if "uint" <= s && ty.Uint? { NumberIff(s[4..], ty.bits, 0x1_0000); }
    if "int" <= s && ty.Int? { NumberIff(s[3..], ty.bits, 0x1_0000); }
    if "varuint" <= s && ty.VarUint? { NumberIff(s[7..], ty.bytes, 0x100); }
    if "varint" <= s && ty.VarInt? { NumberIff(s[6..], ty.bytes, 0x100); }
    if "fixedbytes" <= s && ty.FixedBytes? { NumberIff(s[10..], ty.size, 0x1_0000_0000_0000_0000); }
  }

  // ---------------------------------------------------------------- the parser

  lemma {:induction false} NumberChars(d: string, n: nat, bound: nat)
    requires SpellsNumber(d, n, bound)
    ensures d != "" && '[' !in d && ',' !in d && d[|d| - 1] != ']' && d[0] != '('
  {
    var t: string :| (d == t || d == "+" + t) && t != "" && AllDigits(t) && DigitsValue(t) == n;
    assert t[|t| - 1] == d[|d| - 1];
  }

  lemma {:induction false} Openers(s: string)
    ensures "map(" <= s ==> s[0] == 'm' && |s| >= 4
    ensures "optional(" <= s ==> s[0] == 'o' && |s| >= 9
    ensures "ref(" <= s ==> s[0] == 'r' && |s| >= 4
  {
  }

  lemma {:induction false} NumberedChars(s: string, word: string, n: nat, bound: nat)
    requires SpellsNumbered(s, word, n, bound)
    requires word == "uint" || word == "int" || word == "varuint" || word == "varint" || word == "fixedbytes"
    ensures ',' !in s && !EndsWith(s, ']')
    ensures !("map(" <= s) && !("optional(" <= s) && !("ref(" <= s)
  {
    hide SpellsNumber;
    var d := s[|word|..];
    NumberChars(d, n, bound);
    Openers(s);
    assert s == word + d && s[|s| - 1] == d[|d| - 1] && s[0] == word[0];
  }

  /** A word is no array and opens nothing. */
  lemma {:induction false} WordAlone(s: string, ty: AbiType)
    requires SpellsWord(s, ty)
    ensures ParseSimple(s) == ParseWord(s)
  {
    hide SpellsNumbered, ParseWord;
    Openers(s);
    match ty {
      case Uint(n) => NumberedChars(s, "uint", n, 0x1_0000);
      case Int(n) => NumberedChars(s, "int", n, 0x1_0000);
      case VarUint(n) => NumberedChars(s, "varuint", n, 0x100);
      case VarInt(n) => NumberedChars(s, "varint", n, 0x100);
      case FixedBytes(n) => NumberedChars(s, "fixedbytes", n, 0x1_0000_0000_0000_0000);
      case _ =>
    }
  }

  lemma {:induction false} PlainAlone(s: string, p: PlainAbiType)
    requires SpellsPlain(s, p)
    ensures ',' !in s
  {
    hide SpellsNumbered;
    match p {
      case PlainUint(n) => NumberedChars(s, "uint", n, 0x1_0000);
      case PlainInt(n) => NumberedChars(s, "int", n, 0x1_0000);
      case PlainFixedBytes(n) => NumberedChars(s, "fixedbytes", n, 0x1_0000_0000_0000_0000);
      case _ =>
    }
  }

  /** A text in the grammar is parsed as the type it spells. */
  lemma {:induction false} SpelledParses(s: string, ty: AbiType)
    requires Spells(s, ty)
    ensures ParseSimple(s) == Ok(ty)
    decreases ty
  {
    hide ParseSimple, ParseWord, ParsePlain, ParseUint, SpellsNumber, SpellsPlain, SpellsWord;
    match ty {
      case Array(elem) =>
        var x: string :| s == x + "[]" && Spells(x, elem);
        SpelledParses(x, elem);
        ArrayParses(x, "");
        assert x + "[" + "" + "]" == x + "[]";
      case FixedArray(elem, n) =>
        var x: string, d: string :| s == x + "[" + d + "]" && Spells(x, elem) && SpellsNumber(d, n, 0x1_0000_0000_0000_0000);
        SpelledParses(x, elem);
        NumberIff(d, n, 0x1_0000_0000_0000_0000);
        NumberChars(d, n, 0x1_0000_0000_0000_0000);
        ArrayParses(x, d);
      case Map(key, value) =>
        var x: string, y: string :| s == "map(" + x + "," + y + ")" && SpellsPlain(x, key) && Spells(y, value);
        SpelledParses(y, value);
        PlainIff(x, key);
        PlainAlone(x, key);
        KeyedParses(x, key, y);
      case Optional(inner) =>
        var x: string :| s == "optional(" + x + ")" && Spells(x, inner);
        SpelledParses(x, inner);
        OptionalParses(x);
      case Ref(inner) =>
        var x: string :| s == "ref(" + x + ")" && Spells(x, inner);
        SpelledParses(x, inner);
        RefParses(x);
      case _ =>
        WordAlone(s, ty);
        WordIff(s, ty);
    }
  }

  lemma {:induction false} KeyedParses(key: string, p: PlainAbiType, value: string)
    requires ParsePlain(key) == Ok(p) && ',' !in key
    ensures var inner := ParseSimple(value);
      ParseSimple("map(" + key + "," + value + ")") == if inner.Err? then inner else Ok(Map(p, inner.value))
  {
    hide ParseUint, ParseWord, ParsePlain;
    var inner := key + "," + value;
    var s := "map(" + key + "," + value + ")";
    assert s == "map(" + inner + ")";
    EnclosedParses("map(", inner);
    assert inner[..|key|] == key && inner[|key| + 1..] == value;
    FirstIndexIs(inner, ',', |key|);
  }

  /** The parser goes into an array, a map, one of two wrappers, or reads a word. */
  lemma {:induction false} ParseCases(s: string)
    requires ParseSimple(s).Ok?
    ensures EndsWith(s, ']') ==>
      var body := s[..|s| - 1];
      LastIndexOf(body, '[').Some? && var at := LastIndexOf(body, '[').value; var digits := body[at + 1..];
      ParseSimple(body[..at]).Ok? && (digits != "" ==> ParseUint(digits, U64_BOUND).Some?)
      && ParseSimple(s).value ==
           if digits == "" then Array(ParseSimple(body[..at]).value)
           else FixedArray(ParseSimple(body[..at]).value, ParseUint(digits, U64_BOUND).value)
    ensures !EndsWith(s, ']') && "map(" <= s ==>
      Unwrap(s, "map(").Ok? && var inner := Unwrap(s, "map(").value;
      FirstIndexOf(inner, ',').Some? && var at := FirstIndexOf(inner, ',').value;
      ParsePlain(inner[..at]).Ok? && ParseSimple(inner[at + 1..]).Ok?
      && ParseSimple(s).value == Map(ParsePlain(inner[..at]).value, ParseSimple(inner[at + 1..]).value)
    ensures !EndsWith(s, ']') && !("map(" <= s) && "optional(" <= s ==>
      Unwrap(s, "optional(").Ok? && var x := Unwrap(s, "optional(").value;
      ParseSimple(x).Ok? && ParseSimple(s).value == Optional(ParseSimple(x).value)
    ensures !EndsWith(s, ']') && !("map(" <= s) && !("optional(" <= s) && "ref(" <= s ==>
      Unwrap(s, "ref(").Ok? && var x := Unwrap(s, "ref(").value;
      ParseSimple(x).Ok? && ParseSimple(s).value == Ref(ParseSimple(x).value)
    ensures !EndsWith(s, ']') && !("map(" <= s) && !("optional(" <= s) && !("ref(" <= s) ==> ParseSimple(s) == ParseWord(s)
  {
    hide ParseWord, ParsePlain, ParseUint, LastIndexOf, FirstIndexOf;
  }

  /** What is parsed is in the grammar. */
  lemma {:induction false} ParsedSpells(s: string)
    requires ParseSimple(s).Ok?
    ensures Spells(s, ParseSimple(s).value)
    decreases |s|, 1
  {
    hide ParseSimple, ParseWord, ParsePlain, ParseUint, SpellsNumber, SpellsPlain, SpellsWord, Spells, LastIndexOf, FirstIndexOf;
    ParseCases(s);
    if EndsWith(s, ']') {
      ParsedArray(s);
    } else if "map(" <= s {
      ParsedMap(s);
    } else if "optional(" <= s {
      var x := Unwrap(s, "optional(").value;
      ParsedSpells(x);
      Unwrapped(s, "optional(");
      InnerSpells(s, x, ParseSimple(x).value);
    } else if "ref(" <= s {
      var x := Unwrap(s, "ref(").value;
      ParsedSpells(x);
      Unwrapped(s, "ref(");
      InnerSpells(s, x, ParseSimple(x).value);
    } else {
      var ty := ParseSimple(s).value;
      WordIff(s, ty);
      WordSpells(s, ty);
    }
  }

  lemma {:induction false} ParsedArray(s: string)
    requires ParseSimple(s).Ok? && EndsWith(s, ']')
    ensures Spells(s, ParseSimple(s).value)
    decreases |s|, 0
  {
    hide ParseSimple, ParseUint, SpellsNumber, Spells, LastIndexOf;
    ParseCases(s);
    var body := s[..|s| - 1];
    var at := LastIndexOf(body, '[').value;
    var x, d := body[..at], body[at + 1..];
    ParsedSpells(x);
    assert s == x + "[" + d + "]";
    ArraySpells(s, x, d, ParseSimple(x).value);
  }

  lemma {:induction false} ParsedMap(s: string)
    requires ParseSimple(s).Ok? && !EndsWith(s, ']') && "map(" <= s
    ensures Spells(s, ParseSimple(s).value)
    decreases |s|, 0
  {
    hide ParseSimple, ParsePlain, SpellsPlain, Spells, FirstIndexOf;
    ParseCases(s);
    var inner := Unwrap(s, "map(").value;
    var at := FirstIndexOf(inner, ',').value;
    var x, y := inner[..at], inner[at + 1..];
    ParsedSpells(y);
    PlainIff(x, ParsePlain(x).value);
    assert inner == x + "," + y;
    Unwrapped(s, "map(");
    assert s == "map(" + x + "," + y + ")";
    MapSpells(s, x, y, ParsePlain(x).value, ParseSimple(y).value);
  }

  lemma {:induction false} Unwrapped(s: string, open: string)
    requires open <= s && Unwrap(s, open).Ok?
    ensures s == open + Unwrap(s, open).value + ")"
  {
    var rest := s[|open|..];
    assert s == open + rest && rest == rest[..|rest| - 1] + [rest[|rest| - 1]];
  }

  lemma {:induction false} ArraySpells(s: string, x: string, d: string, elem: AbiType)
    requires s == x + "[" + d + "]" && Spells(x, elem)
    ensures d == "" ==> Spells(s, Array(elem))
    ensures d != "" && ParseUint(d, U64_BOUND).Some? ==> Spells(s, FixedArray(elem, ParseUint(d, U64_BOUND).value))
  {
    hide ParseUint, SpellsNumber;
    if d == "" {
      assert s == x + "[]";
    } else if ParseUint(d, U64_BOUND).Some? {
      NumberIff(d, ParseUint(d, U64_BOUND).value, U64_BOUND);
    }
  }

  lemma {:induction false} MapSpells(s: string, x: string, y: string, key: PlainAbiType, value: AbiType)
    requires s == "map(" + x + "," + y + ")" && SpellsPlain(x, key) && Spells(y, value)
    ensures Spells(s, Map(key, value))
  {
    hide SpellsPlain;
  }

  lemma {:induction false} InnerSpells(s: string, x: string, inner: AbiType)
    requires Spells(x, inner)
    ensures s == "optional(" + x + ")" ==> Spells(s, Optional(inner))
    ensures s == "ref(" + x + ")" ==> Spells(s, Ref(inner))
  {
  }

  lemma {:induction false} WordSpells(s: string, ty: AbiType)
    requires SpellsWord(s, ty)
    ensures Spells(s, ty)
  {
  }

  /** The parser accepts exactly the texts of the grammar, as the types they spell. */
  lemma {:induction false} ParseIff(s: string, ty: AbiType)
    ensures ParseSimple(s) == Ok(ty) <==> Spells(s, ty)
  {
    hide ParseSimple, Spells;
    if ParseSimple(s) == Ok(ty) { ParsedSpells(s); }
    if Spells(s, ty) { SpelledParses(s, ty); }
  }
}
