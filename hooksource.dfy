/**
 * The C# source of the trampoline that `Hook.CreateHookFunction` compiles:
 * a fixed template whose placeholders are replaced, in order, by the
 * parameter declarations (`UpdateParameterTypes`), the return type
 * (`UpdateReturnType`) and the argument list (`UpdateFunctionParams`).
 * The template is kept line by line, without its indentation.
 */
module HookSource {
  import opened Wrappers
  import opened Text
  import opened Reflection

  /** The text every placeholder starts with. */
  const Marker: string := "replace_me_with_"

  const ParametersTypesPlaceholder: string := Marker + "parameters_types"
  const ParametersPlaceholder: string := Marker + "parameters"
  const ReturnTypePlaceholder: string := Marker + "return_type"
  const DefaultReturnTypePlaceholder: string := Marker + "default_return_type"

  lemma MarkerWord() ensures Word(Marker) { }

  /** A placeholder is a word: lower-case letters and underscores. */
  lemma PlaceholderWord(suffix: string)
    requires Word(suffix)
    ensures Word(Marker + suffix)
  {
    MarkerWord();
    WordJoin(Marker, suffix);
  }

  lemma PlaceholdersAreWords()
    ensures Word(Marker) && Word(ParametersTypesPlaceholder) && Word(ParametersPlaceholder)
    ensures Word(ReturnTypePlaceholder) && Word(DefaultReturnTypePlaceholder)
  {
    MarkerWord();
    assert Word("parameters_types") && Word("parameters");
    assert Word("return_type") && Word("default_return_type");
    PlaceholderWord("parameters_types");
    PlaceholderWord("parameters");
    PlaceholderWord("return_type");
    PlaceholderWord("default_return_type");
  }

  /** No character of a placeholder is a space, a line feed or a punctuation mark. */
  lemma PlaceholderLacks(c: char)
    requires c != '_' && !('a' <= c <= 'z')
    ensures c !in Marker && c !in ParametersTypesPlaceholder && c !in ParametersPlaceholder
    ensures c !in ReturnTypePlaceholder && c !in DefaultReturnTypePlaceholder
  {
    PlaceholdersAreWords();
    WordLacks(Marker, c);
    WordLacks(ParametersTypesPlaceholder, c);
    WordLacks(ParametersPlaceholder, c);
    WordLacks(ReturnTypePlaceholder, c);
    WordLacks(DefaultReturnTypePlaceholder, c);
  }

  /** The text `UpdateReturnType` deletes for a method without a result. */
  const ReturnAssignment: string := "var ret = (" + ReturnTypePlaceholder + ")"
  const ReturnStatement: string := "return ret;"

  /** `FullName.Replace("+", ".")`: a nested type `Outer+Inner` is spelled `Outer.Inner`. */
  function Dotted(name: string): (r: string)
    ensures r == Replace(name, "+", ".")
    ensures |r| == |name| && '+' !in r
    ensures forall i :: 0 <= i < |name| ==> r[i] == (if name[i] == '+' then '.' else name[i])
    decreases |name|
  {
    if name == [] then []
    else
      assert name[..1] == [name[0]];
      [if name[0] == '+' then '.' else name[0]] + Dotted(name[1..])
  }

  /** How a parameter's type is written in the trampoline: its dotted full name if public, `object` otherwise. */
  function ParameterTypeName(t: TypeInfo): string
  {
    if t.isPublic then Dotted(t.fullName) else "object"
  }

  /** The name of the `i`-th parameter of the trampoline. */
  function ParameterName(i: nat): string
  {
    "p" + Decimal(i)
  }

  /** The parameter names `p0` to `p{n-1}`. */
  function ParameterNames(n: nat): (r: seq<string>)
    ensures |r| == n
  {
    seq(n, i requires 0 <= i < n => ParameterName(i))
  }

  /** The `i`-th parameter declaration: `<type> p<i>`. */
  function Declaration(types: seq<TypeInfo>, i: nat): string
    requires i < |types|
  {
    ParameterTypeName(types[i]) + " " + ParameterName(i)
  }

  function Declarations(types: seq<TypeInfo>): (r: seq<string>)
    ensures |r| == |types|
  {
    seq(|types|, i requires 0 <= i < |types| => Declaration(types, i))
  }

  /** `", "` after a non-empty list, nothing after an empty one. */
  function TrailingComma(n: nat): string
  {
    if n > 0 then ", " else ""
  }

  /**
   * The string `UpdateFunctionParams`'s loop builds over `n` parameters:
   * `"p" + i + ", "` for each.
   */
  function NamesAccumulated(n: nat): (r: string)
    ensures n > 0 ==> |r| >= 2
    decreases n
  {
    if n == 0 then "" else NamesAccumulated(n - 1) + "p" + Decimal(n - 1) + ", "
  }

  /**
   * The string `UpdateParameterTypes`'s loop has built after its first `k`
   * iterations: for each parameter its type name, a space, its name and `", "`.
   */
  function TypesAccumulated(types: seq<TypeInfo>, k: nat): (r: string)
    requires k <= |types|
    ensures k > 0 ==> |r| >= 2
    decreases k
  {
    if k == 0 then ""
    else TypesAccumulated(types, k - 1) + ParameterTypeName(types[k - 1]) + " " + "p" + Decimal(k - 1) + ", "
  }

  /** Joining one more item appends the separator and the item. */
  lemma JoinSnoc(items: seq<string>, x: string, sep: string)
    ensures JoinWith(items + [x], sep) == if items == [] then x else JoinWith(items, sep) + sep + x
  {
    assert (items + [x])[..|items|] == items;
  }

  /** The names loop builds the argument list followed by one `", "`. */
  lemma {:induction false} NamesAccumulatedJoined(n: nat)
    ensures NamesAccumulated(n) == JoinWith(ParameterNames(n), ", ") + TrailingComma(n)
    decreases n
  {
    if n > 0 {
      var x := ParameterName(n - 1);
      calc {
        NamesAccumulated(n);
        NamesAccumulated(n - 1) + "p" + Decimal(n - 1) + ", ";
        == { RegroupPair(NamesAccumulated(n - 1), "p", Decimal(n - 1), ", "); }
        NamesAccumulated(n - 1) + x + ", ";
        == { NamesAccumulatedJoined(n - 1); }
        JoinWith(ParameterNames(n - 1), ", ") + TrailingComma(n - 1) + x + ", ";
        == { JoinedComma(ParameterNames(n - 1), x); }
        JoinWith(ParameterNames(n - 1) + [x], ", ") + ", ";
        == { assert ParameterNames(n) == ParameterNames(n - 1) + [x]; }
        JoinWith(ParameterNames(n), ", ") + ", ";
      }
    }
  }

  /** One more item joined, followed by the separator the loops leave behind. */
  lemma JoinedComma(items: seq<string>, x: string)
    ensures JoinWith(items + [x], ", ") + ", " == JoinWith(items, ", ") + TrailingComma(|items|) + x + ", "
  {
    if items == [] {
      JoinedCommaFirst(items, x);
    } else {
      JoinSnoc(items, x, ", ");
    }
  }

  lemma JoinedCommaFirst(items: seq<string>, x: string)
    requires items == []
    ensures JoinWith(items + [x], ", ") + ", " == JoinWith(items, ", ") + TrailingComma(|items|) + x + ", "
  {
    JoinOne(items, x);
    NothingBefore(items, x + ", ");
  }

  lemma JoinOne(items: seq<string>, x: string)
    requires items == []
    ensures JoinWith(items + [x], ", ") == x
  {
    assert items + [x] == [x];
  }

  lemma NothingBefore(items: seq<string>, rest: string)
    requires items == []
    ensures JoinWith(items, ", ") + TrailingComma(|items|) + rest == rest
  {
    assert JoinWith(items, ", ") + TrailingComma(|items|) == "";
  }

  /** The `i`-th declaration, as the declarations loop writes it. */
  lemma DeclarationSpelled(types: seq<TypeInfo>, i: nat)
    requires i < |types|
    ensures Declarations(types)[i] == ParameterTypeName(types[i]) + " " + "p" + Decimal(i)
  {
  }

  /** The declarations loop builds the declaration list followed by one `", "`. */
  lemma {:induction false} TypesAccumulatedJoined(types: seq<TypeInfo>, k: nat)
    requires k <= |types|
    ensures TypesAccumulated(types, k) == JoinWith(Declarations(types)[..k], ", ") + TrailingComma(k)
    decreases k
  {
    if k > 0 {
      TypesAccumulatedJoined(types, k - 1);
      TypesAccumulatedStep(types, k);
    }
  }

  /** One iteration of the declarations loop appends the next declaration and a separator. */
  lemma TypesAccumulatedStep(types: seq<TypeInfo>, k: nat)
    requires 0 < k <= |types|
    requires TypesAccumulated(types, k - 1) == JoinWith(Declarations(types)[..k - 1], ", ") + TrailingComma(k - 1)
    ensures TypesAccumulated(types, k) == JoinWith(Declarations(types)[..k], ", ") + TrailingComma(k)
  {
    var ds := Declarations(types);
    var d := ds[k - 1];
    calc {
      TypesAccumulated(types, k);
      == { DeclarationAppended(types, k - 1, TypesAccumulated(types, k - 1)); }
      TypesAccumulated(types, k - 1) + d + ", ";
      JoinWith(ds[..k - 1], ", ") + TrailingComma(k - 1) + d + ", ";
      == { JoinedComma(ds[..k - 1], d); }
      JoinWith(ds[..k - 1] + [d], ", ") + ", ";
      == { PrefixSnoc(ds, k); }
      JoinWith(ds[..k], ", ") + ", ";
    }
  }

  /** What the declarations loop appends for parameter `i` is its declaration and a separator. */
  lemma DeclarationAppended(types: seq<TypeInfo>, i: nat, acc: string)
    requires i < |types|
    ensures acc + ParameterTypeName(types[i]) + " " + "p" + Decimal(i) + ", " == acc + Declarations(types)[i] + ", "
  {
    DeclarationSpelled(types, i);
    Regroup(acc, ParameterTypeName(types[i]), " ", "p", Decimal(i), ", ");
  }

  lemma PrefixSnoc(ds: seq<string>, k: nat)
    requires 0 < k <= |ds|
    ensures ds[..k] == ds[..k - 1] + [ds[k - 1]]
  {
  }

  /**
   * `UpdateFunctionParams`: the accumulated names without their last `", "`
   * (or the empty string for no parameters) replace the argument placeholder.
   */
  function UpdateFunctionParams(code: string, n: nat): string
  {
    var functionParams := NamesAccumulated(n);
    if n > 0 then Replace(code, ParametersPlaceholder, functionParams[..|functionParams| - 2])
    else Replace(code, ParametersPlaceholder, "")
  }

  /**
   * `UpdateParameterTypes`: the accumulated declarations without their last
   * `", "` (or the empty string) replace the parameter-list placeholder.
   */
  function UpdateParameterTypes(code: string, types: seq<TypeInfo>): string
  {
    var functionParamTypes := TypesAccumulated(types, |types|);
    if |types| > 0 then Replace(code, ParametersTypesPlaceholder, functionParamTypes[..|functionParamTypes| - 2])
    else Replace(code, ParametersTypesPlaceholder, "")
  }

  /**
   * The argument list is `p0, p1, …, p{n-1}`: exactly the `n` names, joined
   * by `", "`, empty for no parameters and never ending in a separator.
   */
  lemma FunctionParamsFilled(code: string, n: nat)
    ensures UpdateFunctionParams(code, n)
              == Replace(code, ParametersPlaceholder, JoinWith(ParameterNames(n), ", "))
    ensures n == 0 ==> JoinWith(ParameterNames(n), ", ") == ""
    ensures n > 0 ==> var list := JoinWith(ParameterNames(n), ", ");
              |list| > 0 && IsDigit(list[|list| - 1])
  {
    var list := JoinWith(ParameterNames(n), ", ");
    var acc := NamesAccumulated(n);
    NamesAccumulatedJoined(n);
    if n > 0 {
      assert acc[..|acc| - 2] == list;
      if n > 1 {
        assert list == JoinWith(ParameterNames(n)[..n - 1], ", ") + ", " + ParameterName(n - 1);
      }
      assert list[|list| - 1] == Decimal(n - 1)[|Decimal(n - 1)| - 1];
    }
  }

  /**
   * The parameter list is the declarations `<type_i> p<i>`, in order, joined
   * by `", "`; empty for no parameters.
   */
  lemma ParameterTypesFilled(code: string, types: seq<TypeInfo>)
    ensures UpdateParameterTypes(code, types)
              == Replace(code, ParametersTypesPlaceholder, JoinWith(Declarations(types), ", "))
    ensures forall i :: 0 <= i < |types| ==>
              Declarations(types)[i] == ParameterTypeName(types[i]) + " p" + Decimal(i)
  {
    var acc := TypesAccumulated(types, |types|);
    TypesAccumulatedJoined(types, |types|);
    assert Declarations(types)[..|types|] == Declarations(types);
    if |types| > 0 {
      assert acc[..|acc| - 2] == JoinWith(Declarations(types), ", ");
    }
  }

  /** A public type keeps its name, with nested-type separators dotted; any other type is `object`. */
  lemma ParameterTypeNameSpelled(t: TypeInfo)
    ensures '+' !in ParameterTypeName(t)
    ensures t.isPublic ==> ParameterTypeName(t) == Replace(t.fullName, "+", ".")
    ensures t.isPublic ==>
              && |ParameterTypeName(t)| == |t.fullName|
              && forall i :: 0 <= i < |t.fullName| && t.fullName[i] != '+' ==> ParameterTypeName(t)[i] == t.fullName[i]
    ensures !t.isPublic ==> ParameterTypeName(t) == "object"
  {
  }

  /** Running the argument builder first would turn the parameter-list placeholder into the arguments plus `_types`. */
  lemma ArgumentsFirstCorrupts(arguments: string)
    ensures Replace(ParametersTypesPlaceholder, ParametersPlaceholder, arguments) == arguments + "_types"
  {
    assert ParametersTypesPlaceholder == ParametersPlaceholder + "_types";
    ReplaceLead(ParametersPlaceholder, "_types", arguments);
    ReplaceShort("_types", ParametersPlaceholder, arguments);
  }

  /**
   * The return type as `UpdateReturnType` first spells it: none for a
   * constructor (it has no return type), `object` for a reference type that
   * is not visible, the dotted full name otherwise.
   */
  function ReturnTypeName(f: TargetFunction): Option<string>
  {
    if f.isConstructor then None
    else if !f.returnType.isValueType && !f.returnType.isVisible then Some("object")
    else Some(Dotted(f.returnType.fullName))
  }

  /** A routine without a result: one returning `System.Void`, or a constructor. */
  predicate ReturnsNothing(f: TargetFunction)
  {
    ReturnTypeName(f) == Some("System.Void") || f.isConstructor
  }

  /** The return type the trampoline declares. */
  function ReturnType(f: TargetFunction): string
  {
    if ReturnsNothing(f) then "void" else ReturnTypeName(f).value
  }

  /** The default value of a type, `default(<type>)`. */
  function DefaultValue(returnType: string): string
  {
    "default(" + returnType + ")"
  }

  /** The last two replacements of `UpdateReturnType`: the type, then its default value. */
  function FillReturnType(code: string, returnType: string): string
  {
    Replace(Replace(code, ReturnTypePlaceholder, returnType), DefaultReturnTypePlaceholder, DefaultValue(returnType))
  }

  /**
   * `UpdateReturnType`: for a routine without a result the result variable,
   * the default value and the `return ret;` statement are deleted first and
   * the type becomes `void`.
   */
  function UpdateReturnType(code: string, f: TargetFunction): string
  {
    var returnType := ReturnTypeName(f);
    if returnType == Some("System.Void") || f.isConstructor then
      var stripped := Replace(Replace(Replace(code, ReturnAssignment, ""), DefaultReturnTypePlaceholder, ""), ReturnStatement, "");
      FillReturnType(stripped, "void")
    else
      FillReturnType(code, returnType.value)
  }

  /**
   * A constructor and a `System.Void` method declare `void`; a non-visible
   * reference type is declared `object`; any other type by its dotted name.
   */
  lemma ReturnTypeSpelled(f: TargetFunction)
    ensures f.isConstructor ==> ReturnType(f) == "void"
    ensures (!f.isConstructor && Dotted(f.returnType.fullName) == "System.Void"
             && (f.returnType.isValueType || f.returnType.isVisible)) ==> ReturnType(f) == "void"
    ensures !f.isConstructor && !f.returnType.isValueType && !f.returnType.isVisible ==> ReturnType(f) == "object"
    ensures !ReturnsNothing(f) && (f.returnType.isValueType || f.returnType.isVisible) ==> ReturnType(f) == Dotted(f.returnType.fullName)
    ensures '+' !in ReturnType(f)
  {
  }
}
