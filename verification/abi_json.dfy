/** Which JSON objects describe a named type, stated without the parser. */
module AbiJson {
  import opened Cells
  import opened AbiTypes
  import opened AbiRoundTrip
  import opened AbiSpelling

  /** The object has the name, the text of the type without tuple items, and these items, where there is a tuple. */
  ghost predicate Describes(j: Json, item: NamedAbiType)
    decreases item
  {
    && j.name == item.name && Spells(j.ty, WithComponents(item.ty, []))
    && match Components(item.ty)
       case None => j.components.Absent?
       case Some(items) =>
         && j.components.Present? && |j.components.items| == |items|
         && forall i :: 0 <= i < |items| ==> (ComponentsSmaller(item.ty, i); Describes(j.components.items[i], items[i]))
  }

  /** Texts hold no tuple items. */
  lemma {:induction false} SpelledEmpty(s: string, ty: AbiType)
    requires Spells(s, ty)
    ensures WithComponents(ty, []) == ty
    decreases ty
  {
    hide SpellsWord, SpellsPlain, SpellsNumber;
    match ty {
      case Array(elem) =>
        var x: string :| s == x + "[]" && Spells(x, elem);
        SpelledEmpty(x, elem);
      case FixedArray(elem, n) =>
        var x: string, d: string :| s == x + "[" + d + "]" && Spells(x, elem) && SpellsNumber(d, n, 0x1_0000_0000_0000_0000);
        SpelledEmpty(x, elem);
      case Map(key, value) =>
        var x: string, y: string :| s == "map(" + x + "," + y + ")" && SpellsPlain(x, key) && Spells(y, value);
        SpelledEmpty(y, value);
      case Optional(inner) =>
        var x: string :| s == "optional(" + x + ")" && Spells(x, inner);
        SpelledEmpty(x, inner);
      case Ref(inner) =>
        var x: string :| s == "ref(" + x + ")" && Spells(x, inner);
        SpelledEmpty(x, inner);
      case _ => WordEmpty(s, ty);
    }
  }

  lemma {:induction false} WordEmpty(s: string, ty: AbiType)
    requires SpellsWord(s, ty)
    ensures WithComponents(ty, []) == ty
  {
    hide SpellsNumbered;
  }

  /** Putting items into a type replaces those it has. */
  lemma {:induction false} ItemsReplaced(ty: AbiType, items: seq<NamedAbiType>)
    ensures Components(WithComponents(ty, items)) == (if Components(ty).Some? then Some(items) else None)
    ensures WithComponents(WithComponents(ty, items), []) == WithComponents(ty, [])
  {
    match ty {
      case Array(elem) => ItemsReplaced(elem, items);
      case FixedArray(elem, _) => ItemsReplaced(elem, items);
      case Map(_, value) => ItemsReplaced(value, items);
      case Optional(inner) => ItemsReplaced(inner, items);
      case Ref(inner) => ItemsReplaced(inner, items);
      case _ =>
    }
  }

  ghost predicate AllDescribe(j: Json, items: seq<NamedAbiType>, n: nat)
    requires j.components.Present? && n <= |j.components.items| && n <= |items|
  {
    forall i :: 0 <= i < n ==> Describes(j.components.items[i], items[i])
  }

  /** Reading succeeds with a named type exactly when the object describes it. */
  lemma {:induction false} FromJsonIff(j: Json, item: NamedAbiType)
    ensures FromJson(j) == Ok(item) <==> Describes(j, item)
    decreases j, 0
  {
    hide ParseSimple, Spells, FromJsonItems;
    var plain := WithComponents(item.ty, []);
    ParseIff(j.ty, plain);
    ComponentsBack(item.ty);
    ItemsReplaced(item.ty, []);
    var parsed := ParseSimple(j.ty);
    if parsed.Ok? {
      var ty := parsed.value;
      ParseIff(j.ty, ty);
      SpelledEmpty(j.ty, ty);
      if j.components.Present? {
        var n := |j.components.items|;
        ItemsRead(j, n);
        var read := FromJsonItems(j, n);
        if read.Ok? { ItemsReplaced(ty, read.value); }
        if Components(item.ty).Some? && |Components(item.ty).value| == n {
          var items := Components(item.ty).value;
          assert items[..n] == items;
          ItemsIff(j, items, n);
          if Describes(j, item) { assert AllDescribe(j, items, n); }
        }
        if read.Ok? {
          assert read.value[..n] == read.value;
          ItemsIff(j, read.value, n);
        }
      }
    }
  }

  lemma {:induction false} ItemsRead(j: Json, n: nat)
    requires j.components.Present? && n <= |j.components.items|
    ensures FromJsonItems(j, n).Ok? ==> |FromJsonItems(j, n).value| == n
  {
    hide FromJson;
    if n > 0 { ItemsRead(j, n - 1); }
  }

  lemma {:induction false} ItemsIff(j: Json, items: seq<NamedAbiType>, n: nat)
    requires j.components.Present? && n <= |j.components.items| && n <= |items|
    ensures FromJsonItems(j, n) == Ok(items[..n]) <==> AllDescribe(j, items, n)
    decreases j, 0, n
  {
    hide FromJson, Describes;
    if n > 0 {
      ItemsIff(j, items, n - 1);
      ItemsRead(j, n - 1);
      FromJsonIff(j.components.items[n - 1], items[n - 1]);
      assert items[..n] == items[..n - 1] + [items[n - 1]];
      var read := FromJsonItems(j, n);
      if read == Ok(items[..n]) { assert items[..n][..n - 1] == items[..n - 1]; }
    } else {
      assert items[..0] == [];
    }
  }
}
