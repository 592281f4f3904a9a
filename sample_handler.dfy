/** The decisions the editor extension takes around an incoming runtime
    sample (src/extension.ts): dropping a sample whose type alias is gone,
    stripping the array root the runtime library wraps every sample in, and
    numbering a new typehole. The editor edits themselves are not modelled. */
module SampleHandler {
  import opened Wrappers
  import opened TextReplace

  /** The name the runtime gives to the root of the types it sends. */
  const RootName := "IRootObject"
  /** The element type of an array root. */
  const ItemName := "IRootObjectItem"
  /** The array suffix dropped from a plain root. */
  const ArraySuffix := "[]"
  /** The exact line that marks an array root:
      `type IRootObject = IRootObjectItem[];`. */
  const ArrayRootLine := "type " + RootName + " = " + ItemName + ArraySuffix + ";"

  /** The array-root line mentions the root name. */
  lemma ArrayRootLineNamesRoot(types: string)
    ensures Includes(types, ArrayRootLine) ==> Includes(types, RootName)
  {
    if Includes(types, ArrayRootLine) {
      assert ArrayRootLine == "type " + RootName + (" = " + ItemName + ArraySuffix + ";");
      assert ArrayRootLine[5..5 + |RootName|] == RootName;
      IncludesWithin(types, ArrayRootLine, RootName, 5);
    }
  }

  /** The type text handed on to the interface merge: with the array-root
      line present, that line is removed and the element type takes the
      user's type name; otherwise the root takes the name and the first `[]`
      is dropped. Replacements are literal (see `StripArrayRootAsWritten`
      for the text as JavaScript evaluates it). Text that mentions neither
      the root nor `[]` passes through unchanged, and the result is never
      longer than the text plus the name. */
  function StripArrayRoot(types: string, typeName: string): (r: string)
    ensures !Includes(types, RootName) && !Includes(types, ArraySuffix) ==> r == types
    ensures |r| <= |types| + |typeName|
  {
    ArrayRootLineNamesRoot(types);
    if !Includes(types, ArrayRootLine) then
      ReplaceFirst(ReplaceFirst(types, RootName, typeName), ArraySuffix, "")
    else
      ReplaceFirst(ReplaceFirst(types, ArrayRootLine, ""), ItemName, typeName)
  }

  /** The same rewrite with JavaScript's own `replace`, which expands `$`
      patterns in the type name. Without a `$` in the name the two agree. */
  function StripArrayRootAsWritten(types: string, typeName: string): (r: string)
    ensures '$' !in typeName ==> r == StripArrayRoot(types, typeName)
    ensures !Includes(types, RootName) && !Includes(types, ArraySuffix) ==> r == types
  {
    ArrayRootLineNamesRoot(types);
    if !Includes(types, ArrayRootLine) then
      JsReplace(JsReplace(types, RootName, typeName), ArraySuffix, "")
    else
      JsReplace(JsReplace(types, ArrayRootLine, ""), ItemName, typeName)
  }

  /** An array root: the array-root line comes first and the element type is
      declared after it (no capital `I` before its name). The line is gone and
      the element type carries the user's name. */
  lemma StripArrayRootOfArray(a: string, b: string, typeName: string)
    requires 'I' !in a
    ensures StripArrayRoot(ArrayRootLine + a + ItemName + b, typeName) == a + typeName + b
  {
    assert ItemName[0] == 'I';
    RemoveHeadThenRename(ArrayRootLine, a, ItemName, b, typeName);
  }

  /** A plain root: the root is renamed and the first `[]` after it dropped;
      everything after that `[]`, later `[]`s included, is kept. */
  lemma StripArrayRootOfValue(a: string, b: string, c: string, typeName: string)
    requires !Includes(a + RootName + b + ArraySuffix + c, ArrayRootLine)
    requires 'I' !in a && '[' !in a + typeName + b
    ensures StripArrayRoot(a + RootName + b + ArraySuffix + c, typeName) == a + typeName + b + c
  {
    assert RootName[0] == 'I' && ArraySuffix[0] == '[';
    RenameThenReplace(a, RootName, b, ArraySuffix, c, typeName, "");
  }

  /** JavaScript reads `$$` in a replacement as one `$`: whenever the root is
      renamed to a type name ending in `$$`, the text as written carries the
      name with one `$` lost. */
  lemma DollarNameCollapses(a: string, b: string, c: string, name: string)
    requires !Includes(a + RootName + b + ArraySuffix + c, ArrayRootLine)
    requires 'I' !in a && '[' !in a + name + b && '$' !in name
    ensures StripArrayRootAsWritten(a + RootName + b + ArraySuffix + c, name + "$$") == a + name + "$" + b + c
  {
    assert RootName[0] == 'I' && ArraySuffix[0] == '[';
    JsRenameThenDrop(a, RootName, b, ArraySuffix, c, name);
  }

  /** The literal rewrite keeps both `$` of such a name, so the two rewrites
      differ: the lengths already do. */
  lemma DollarNameDiffers(a: string, b: string, c: string, name: string)
    requires !Includes(a + RootName + b + ArraySuffix + c, ArrayRootLine)
    requires 'I' !in a && '[' !in a + name + b && '$' !in name
    ensures StripArrayRoot(a + RootName + b + ArraySuffix + c, name + "$$") == a + (name + "$$") + b + c
    ensures StripArrayRootAsWritten(a + RootName + b + ArraySuffix + c, name + "$$")
         != StripArrayRoot(a + RootName + b + ArraySuffix + c, name + "$$")
  {
    var types := a + RootName + b + ArraySuffix + c;
    var asWritten := a + name + "$" + b + c;
    var literal := a + (name + "$$") + b + c;
    assert StripArrayRootAsWritten(types, name + "$$") == asWritten by {
      DollarNameCollapses(a, b, c, name);
    }
    assert StripArrayRoot(types, name + "$$") == literal by {
      StripArrayRootOfValue(a, b, c, name + "$$");
    }
    assert |asWritten| != |literal|;
  }

  /** The smallest text that shows it: `type IRootObject = number[];` sent
      for a type alias named `Total$$` comes out as `type Total$ = number;`. */
  lemma DollarNameExample(types: string)
    requires types == "type " + RootName + " = number" + ArraySuffix + ";"
    ensures StripArrayRootAsWritten(types, "Total" + "$$") == "type " + "Total" + "$" + " = number" + ";"
  {
    assert !Includes(types, ArrayRootLine) by {
      ShorterExcludes(types, ArrayRootLine);
    }
    assert 'I' !in "type " && '[' !in "type " + "Total" + " = number" && '$' !in "Total";
    DollarNameCollapses("type ", " = number", ";", "Total");
  }

  /** The literal rewrite of the same text keeps the name whole. */
  lemma DollarNameExampleIntended(types: string)
    requires types == "type " + RootName + " = number" + ArraySuffix + ";"
    ensures StripArrayRoot(types, "Total$$") == "type " + "Total$$" + " = number" + ";"
  {
    assert !Includes(types, ArrayRootLine) by {
      ShorterExcludes(types, ArrayRootLine);
    }
    assert 'I' !in "type " && '[' !in "type " + "Total$$" + " = number";
    StripArrayRootOfValue("type ", " = number", ";", "Total$$");
  }

  /** The sample handler: `None` for the unknown alias is a dropped sample
      (no edit at all); otherwise the stripped types, as JavaScript computes
      them, go on to be merged and written into the file. For an alias
      without `$` that is the literal rewrite. */
  function OnTypeExtracted(typeAlias: Option<string>, types: string): (r: Option<string>)
    ensures typeAlias.None? <==> r.None?
    ensures typeAlias.Some? ==> r == Some(StripArrayRootAsWritten(types, typeAlias.value))
    ensures typeAlias.Some? && '$' !in typeAlias.value ==> r == Some(StripArrayRoot(types, typeAlias.value))
  {
    match typeAlias
    case None => None
    case Some(typeName) => Some(StripArrayRootAsWritten(types, typeName))
  }

  /** `last(arr)`: the final element, `undefined` for an empty array. */
  function Last<T>(arr: seq<T>): (r: Option<T>)
    ensures r.None? <==> |arr| == 0
    ensures r.Some? ==> r.value == arr[|arr| - 1]
  {
    if |arr| == 0 then None else Some(arr[|arr| - 1])
  }

  /** The number given to a new typehole: how many typeholes the whole file
      has before the new one is inserted. */
  function NewHoleId<T>(oldHoles: seq<T>): nat {
    |oldHoles|
  }

  /** The rescanned file lists its typeholes in document order: those above
      the new one (`holesBefore`), the new one, and those below it
      (`holesAfter`). The number counts every typehole the file had before
      the insertion, above and below the selection. It is the new typehole's
      index in the rescan, and `last` finds the new typehole, exactly when
      nothing lies below it; otherwise `last` finds the last typehole below. */
  lemma NewHoleIdIndexesNewHole<T>(holesBefore: seq<T>, newHole: T, holesAfter: seq<T>)
    ensures NewHoleId(holesBefore + holesAfter) < |holesBefore + [newHole] + holesAfter|
    ensures newHole !in holesAfter ==>
              ((holesBefore + [newHole] + holesAfter)[NewHoleId(holesBefore + holesAfter)] == newHole
               <==> holesAfter == [])
    ensures Last(holesBefore + [newHole] + holesAfter)
         == if holesAfter == [] then Some(newHole) else Last(holesAfter)
    ensures newHole !in holesAfter ==>
              (Last(holesBefore + [newHole] + holesAfter) == Some(newHole) <==> holesAfter == [])
  {
    var s := holesBefore + [newHole] + holesAfter;
    assert NewHoleId(holesBefore + holesAfter) == |s| - 1;
    if holesAfter != [] {
      assert s[|s| - 1] == holesAfter[|holesAfter| - 1];
    } else {
      assert s == holesBefore + [newHole];
    }
  }
}
