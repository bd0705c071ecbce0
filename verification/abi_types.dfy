/** The ABI type language: its printers, its parser, and its JSON form. */
module AbiTypes {
  import opened Cells

  type u16 = x: int | 0 <= x < 0x1_0000
  type nonzero8 = x: int | 1 <= x < 0x100 witness 1
  type usize = x: int | 0 <= x < 0x1_0000_0000_0000_0000

  datatype PlainAbiType =
    | PlainUint(bits: u16) | PlainInt(bits: u16) | PlainBool | PlainAddress | PlainAddressStd | PlainFixedBytes(size: usize)

  datatype AbiType =
    | Uint(bits: u16) | Int(bits: u16) | VarUint(bytes: nonzero8) | VarInt(bytes: nonzero8)
    | Bool | CellType | Address | AddressStd | Bytes | FixedBytes(size: usize) | String | Token
    | Tuple(items: seq<NamedAbiType>)
    | Array(elem: AbiType) | FixedArray(elem: AbiType, len: usize)
    | Map(key: PlainAbiType, value: AbiType) | Optional(inner: AbiType) | Ref(inner: AbiType)

  datatype NamedAbiType = NamedAbiType(name: string, ty: AbiType)

  // ---------------------------------------------------------------- decimal numbers

  function Digit(d: nat): char
    requires d < 10
  {
    '0' + d as char
  }

  function Decimal(n: nat): (s: string)
    ensures |s| >= 1 && forall i :: 0 <= i < |s| ==> '0' <= s[i] <= '9'
  {
    if n < 10 then [Digit(n)] else Decimal(n / 10) + [Digit(n % 10)]
  }

  function ParseDigits(s: string): Option<nat> {
    if s == "" then Some(0)
    else
      var last := s[|s| - 1];
      match ParseDigits(s[..|s| - 1])
      case None => None
      case Some(v) => if '0' <= last <= '9' then Some(10 * v + (last as nat - '0' as nat)) else None
  }

  /** A number below `bound`, with an optional plus sign before its digits. */
  function ParseUint(s: string, bound: nat): (r: Option<nat>)
    ensures r.Some? ==> r.value < bound
  {
    var digits := if |s| > 1 && s[0] == '+' then s[1..] else s;
    if digits == "" then None
    else
      match ParseDigits(digits)
      case None => None
      case Some(v) => if v < bound then Some(v) else None
  }

  lemma {:induction false} ParseDecimal(n: nat)
    ensures ParseDigits(Decimal(n)) == Some(n)
  {
    var s := Decimal(n);
    if n < 10 {
      assert s[..|s| - 1] == "" && ParseDigits("") == Some(0);
    } else {
      ParseDecimal(n / 10);
      assert s[..|s| - 1] == Decimal(n / 10);
    }
  }

  lemma {:induction false} ParseUintDecimal(n: nat, bound: nat)
    requires n < bound
    ensures ParseUint(Decimal(n), bound) == Some(n)
  {
    ParseDecimal(n);
  }

  lemma {:induction false} DecimalInjective(a: nat, b: nat)
    requires Decimal(a) == Decimal(b)
    ensures a == b
  {
    ParseDecimal(a);
    ParseDecimal(b);
  }

  // ---------------------------------------------------------------- printing

  function ShowPlain(p: PlainAbiType): string {
    match p
    case PlainUint(n) => "uint" + Decimal(n)
    case PlainInt(n) => "int" + Decimal(n)
    case PlainBool => "bool"
    case PlainAddress => "address"
    case PlainAddressStd => "address_std"
    case PlainFixedBytes(n) => "fixedbytes" + Decimal(n)
  }

  /** Types that print as one word. */
  predicate IsWord(ty: AbiType) {
    !ty.Tuple? && !ty.Array? && !ty.FixedArray? && !ty.Map? && !ty.Optional? && !ty.Ref?
  }

  function ShowWord(ty: AbiType): string
    requires IsWord(ty)
  {
    match ty
    case Uint(n) => "uint" + Decimal(n)
    case Int(n) => "int" + Decimal(n)
    case VarUint(n) => "varuint" + Decimal(n)
    case VarInt(n) => "varint" + Decimal(n)
    case Bool => "bool"
    case CellType => "cell"
    case Address => "address"
    case AddressStd => "address_std"
    case Bytes => "bytes"
    case FixedBytes(n) => "fixedbytes" + Decimal(n)
    case String => "string"
    case Token => "gram"
  }

  /** The full signature: tuples are spelled out. */
  function Show(ty: AbiType): string
    decreases ty, 0
  {
    match ty
    case Tuple(items) => "(" + ShowItems(ty, |items|) + ")"
    case Array(elem) => Show(elem) + "[]"
    case FixedArray(elem, n) => Show(elem) + "[" + Decimal(n) + "]"
    case Map(key, value) => "map(" + ShowPlain(key) + "," + Show(value) + ")"
    case Optional(inner) => "optional(" + Show(inner) + ")"
    case Ref(inner) => "ref(" + Show(inner) + ")"
    case _ => ShowWord(ty)
  }

  /** The first `n` items of a tuple, separated by commas. */
  function ShowItems(ty: AbiType, n: nat): string
    requires ty.Tuple? && n <= |ty.items|
    decreases ty, 0, n
  {
    if n == 0 then ""
    else ShowItems(ty, n - 1) + (if n == 1 then "" else ",") + Show(ty.items[n - 1].ty)
  }

  /** The short form: a tuple is just a word, its items go elsewhere. */
  function ShowSimple(ty: AbiType): string {
    match ty
    case Tuple(_) => "tuple"
    case Array(elem) => ShowSimple(elem) + "[]"
    case FixedArray(elem, n) => ShowSimple(elem) + "[" + Decimal(n) + "]"
    case Map(key, value) => "map(" + ShowPlain(key) + "," + ShowSimple(value) + ")"
    case Optional(inner) => "optional(" + ShowSimple(inner) + ")"
    case Ref(inner) => "ref(" + ShowSimple(inner) + ")"
    case _ => ShowWord(ty)
  }

  class Formatter {
    var out: string

    constructor ()
      ensures out == ""
    {
      out := "";
    }

    method WriteStr(s: string)
      modifies this
      ensures out == old(out) + s
    {
      out := out + s;
    }
  }

  /** Writes the full signature. */
  method Fmt(ty: AbiType, f: Formatter)
    modifies f
    ensures f.out == old(f.out) + Show(ty)
    decreases ty, 1
  {
    hide Decimal, ShowPlain, ShowWord, ShowItems;
    match ty {
      case Tuple(items) => FmtTuple(ty, f);
      case Array(elem) =>
        Fmt(elem, f);
        f.WriteStr("[]");
      case FixedArray(elem, n) =>
        Fmt(elem, f);
        f.WriteStr("[" + Decimal(n) + "]");
      case Map(key, value) => FmtEnclosed("map(" + ShowPlain(key) + ",", value, f);
      case Optional(inner) => FmtEnclosed("optional(", inner, f);
      case Ref(inner) => FmtEnclosed("ref(", inner, f);
      case _ => f.WriteStr(ShowWord(ty));
    }
  }

  method FmtEnclosed(open: string, ty: AbiType, f: Formatter)
    modifies f
    ensures f.out == old(f.out) + (open + Show(ty) + ")")
    decreases ty, 2
  {
    hide Show;
    f.WriteStr(open);
    Fmt(ty, f);
    f.WriteStr(")");
  }

  method FmtTuple(ty: AbiType, f: Formatter)
    requires ty.Tuple?
    modifies f
    ensures f.out == old(f.out) + ("(" + ShowItems(ty, |ty.items|) + ")")
    decreases ty, 0
  {
    hide Show;
    if ty.items == [] {
      f.WriteStr("()");
    } else {
      var first := true;
      f.WriteStr("(");
      for i := 0 to |ty.items|
        invariant f.out == old(f.out) + ("(" + ShowItems(ty, i)) && first == (i == 0)
      {
        if !first { f.WriteStr(","); }
        first := false;
        Fmt(ty.items[i].ty, f);
      }
      f.WriteStr(")");
    }
  }

  // ---------------------------------------------------------------- parsing

  datatype ParseError =
    | InvalidArrayType | InvalidArrayLength | InvalidBitLen | InvalidByteLen
    | UnterminatedInnerType | ValueTypeNotFound | UnknownType

  function LastIndexOf(s: string, c: char): (r: Option<nat>)
    ensures r.Some? ==> r.value < |s| && s[r.value] == c && c !in s[r.value + 1..]
  {
    if s == "" then None
    else if s[|s| - 1] == c then Some(|s| - 1)
    else
      var r := LastIndexOf(s[..|s| - 1], c);
      assert r.Some? ==> s[r.value + 1..] == s[..|s| - 1][r.value + 1..] + [s[|s| - 1]];
      r
  }

  function FirstIndexOf(s: string, c: char): (r: Option<nat>)
    ensures r.Some? ==> r.value < |s| && s[r.value] == c && c !in s[..r.value]
  {
    if s == "" then None
    else if s[0] == c then Some(0)
    else
      match FirstIndexOf(s[1..], c)
      case None => None
      case Some(i) => assert s[..i + 1] == [s[0]] + s[1..][..i]; Some(i + 1)
  }

  predicate StartsWith(s: string, prefix: string) { prefix <= s }

  predicate EndsWith(s: string, c: char) { s != "" && s[|s| - 1] == c }

  const U16_BOUND: nat := 0x1_0000
  const U64_BOUND: nat := 0x1_0000_0000_0000_0000

  function ParsePlain(s: string): Result<PlainAbiType, ParseError> {
    if s == "bool" then Ok(PlainBool)
    else if s == "address" then Ok(PlainAddress)
    else if s == "address_std" then Ok(PlainAddressStd)
    else if StartsWith(s, "uint") then
      match ParseUint(s[4..], U16_BOUND)
      case None => Err(InvalidBitLen)
      case Some(n) => Ok(PlainUint(n))
    else if StartsWith(s, "int") then
      match ParseUint(s[3..], U16_BOUND)
      case None => Err(InvalidBitLen)
      case Some(n) => Ok(PlainInt(n))
    else if StartsWith(s, "fixedbytes") then
      match ParseUint(s[10..], U64_BOUND)
      case None => Err(InvalidByteLen)
      case Some(n) => Ok(PlainFixedBytes(n))
    else Err(UnknownType)
  }

  /** Words and words with a number. */
  function ParseWord(s: string): Result<AbiType, ParseError> {
    if s == "bool" then Ok(Bool)
    else if s == "cell" then Ok(CellType)
    else if s == "address" then Ok(Address)
    else if s == "address_std" then Ok(AddressStd)
    else if s == "bytes" then Ok(Bytes)
    else if s == "string" then Ok(String)
    else if s == "gram" || s == "token" then Ok(Token)
    else if s == "tuple" then Ok(Tuple([]))
    else if StartsWith(s, "uint") then
      match ParseUint(s[4..], U16_BOUND)
      case None => Err(InvalidBitLen)
      case Some(n) => Ok(Uint(n))
    else if StartsWith(s, "int") then
      match ParseUint(s[3..], U16_BOUND)
      case None => Err(InvalidBitLen)
      case Some(n) => Ok(Int(n))
    else if StartsWith(s, "varuint") then
      match ParseUint(s[7..], 0x100)
      case None => Err(InvalidByteLen)
      case Some(n) => if n == 0 then Err(InvalidByteLen) else Ok(VarUint(n))
    else if StartsWith(s, "varint") then
      match ParseUint(s[6..], 0x100)
      case None => Err(InvalidByteLen)
      case Some(n) => if n == 0 then Err(InvalidByteLen) else Ok(VarInt(n))
    else if StartsWith(s, "fixedbytes") then
      match ParseUint(s[10..], U64_BOUND)
      case None => Err(InvalidByteLen)
      case Some(n) => Ok(FixedBytes(n))
    else Err(UnknownType)
  }

  /** Text between an opening part and the closing parenthesis. */
  function Unwrap(s: string, open: string): (r: Result<string, ParseError>)
    requires StartsWith(s, open)
    ensures r.Ok? ==> |r.value| < |s|
  {
    var rest := s[|open|..];
    if EndsWith(rest, ')') then Ok(rest[..|rest| - 1]) else Err(UnterminatedInnerType)
  }

  /** Parses the short form. */
  function ParseSimple(s: string): Result<AbiType, ParseError>
    decreases |s|
  {
    if EndsWith(s, ']') then
      var body := s[..|s| - 1];
      match LastIndexOf(body, '[')
      case None => Err(InvalidArrayType)
      case Some(at) =>
        var digits := body[at + 1..];
        var len := ParseUint(digits, U64_BOUND);
        if digits != "" && len.None? then Err(InvalidArrayLength)
        else
          match ParseSimple(body[..at])
          case Err(e) => Err(e)
          case Ok(ty) => Ok(if digits == "" then Array(ty) else FixedArray(ty, len.value))
    else if StartsWith(s, "map(") then
      match Unwrap(s, "map(")
      case Err(e) => Err(e)
      case Ok(inner) =>
        match FirstIndexOf(inner, ',')
        case None => Err(ValueTypeNotFound)
        case Some(at) =>
          var key := ParsePlain(inner[..at]);
          if key.Err? then Err(key.error)
          else
            match ParseSimple(inner[at + 1..])
            case Err(e) => Err(e)
            case Ok(value) => Ok(Map(key.value, value))
    else if StartsWith(s, "optional(") then
      match Unwrap(s, "optional(")
      case Err(e) => Err(e)
      case Ok(inner) => match ParseSimple(inner) case Err(e) => Err(e) case Ok(ty) => Ok(Optional(ty))
    else if StartsWith(s, "ref(") then
      match Unwrap(s, "ref(")
      case Err(e) => Err(e)
      case Ok(inner) => match ParseSimple(inner) case Err(e) => Err(e) case Ok(ty) => Ok(Ref(ty))
    else ParseWord(s)
  }
}
