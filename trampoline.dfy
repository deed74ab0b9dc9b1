/**
 * The template `Hook.CreateHookFunction` fills in, and the source it
 * produces. The template is kept line by line without its indentation,
 * lines separated by a single line feed, and with the class name
 * `MyProgram` left as written (the compiled class gets a fresh name, which
 * is not modelled). Seven of its lines carry placeholders; the rest are
 * fixed text, and the fill theorem shows that the three builders leave the
 * fixed text alone and turn the seven lines into the expected routine
 * headers, default return, invocation of the original and final return.
 */
module TrampolineSource {
  import opened Wrappers
  import opened Text
  import opened Reflection
  import opened HookSource

  /** The seven template lines that carry placeholders, or what they have become. */
  datatype Holes = Holes(
    instanceHeader: string,
    defaultReturn: string,
    instanceCall: string,
    instanceReturn: string,
    staticHeader: string,
    staticCall: string,
    staticReturn: string)
  {
    /** Every line with `pat` replaced by `rep`. */
    function Replaced(pat: string, rep: string): Holes
      requires |pat| > 0
    {
      Holes(
        Replace(instanceHeader, pat, rep),
        Replace(defaultReturn, pat, rep),
        Replace(instanceCall, pat, rep),
        Replace(instanceReturn, pat, rep),
        Replace(staticHeader, pat, rep),
        Replace(staticCall, pat, rep),
        Replace(staticReturn, pat, rep))
    }
  }

  // The fixed lines, written in short pieces.
  const HookManagerInstance: string := "HookManager" + ".Instance"
  const NoInliningAttribute: string := "[MethodImpl(" + "MethodImplOptions" + ".NoInlining)]"
  const UsingSystem: string := "using System"
  const UsingCompilerServices: string := "using System" + ".Runtime" + ".CompilerServices"
  const UsingManagedHook: string := "using ManagedHook"
  const ClassHeader: string := "public class" + " MyProgram"
  const FetchHookCall: string := "var hook = " + HookManagerInstance + ".GetHook(" + "(IntPtr)Hook" + ".GetRBX())"
  const FetchHook: string := FetchHookCall + ";"
  const GuardReplacer: string := "if (hook" + ".FunctionReplacer" + " != null)"
  const CallReplacerCall: string := "hook" + ".FunctionReplacer" + ".NewFunction(this)"
  const CallReplacer: string := CallReplacerCall + ";"
  const BeforeInstanceCall: string := "hook.HookHandler" + ".Before(this)"
  const BeforeInstanceComment: string :=
    " // The \"this\"" + " here is" + " the caller" + " instance," + " this is not" + " the current" + " class"
    + " \"MyProgram\""
  const BeforeInstance: string := BeforeInstanceCall + ";" + BeforeInstanceComment
  const BeforeStaticCall: string := "hook.HookHandler" + ".Before(null)"
  const BeforeStaticComment: string := " // the instance" + " is null" + " for static" + " methods"
  const BeforeStatic: string := BeforeStaticCall + ";" + BeforeStaticComment
  const UnhookCall: string := HookManagerInstance + ".UnHookFunction" + "(hook)"
  const UnhookStatement: string := UnhookCall + ";"
  const RehookCall: string := HookManagerInstance + ".HookFunction(" + "hook.Function, " + "hook.HookHandler)"
  const RehookStatement: string := RehookCall + ";"
  const AfterInstanceCall: string := "hook.HookHandler" + ".After(this)"
  const AfterInstance: string := AfterInstanceCall + ";"
  const AfterStaticCall: string := "hook.HookHandler" + ".After(null)"
  const AfterStatic: string := AfterStaticCall + ";"

  /** Hook.cs lines 166-173: the usings and the class header. */
  const Opening: seq<string> :=
    ["", UsingSystem + ";", UsingCompilerServices + ";", UsingManagedHook + ";", "", ClassHeader, "{", NoInliningAttribute]
  /** Lines 175-179: the replacer branch up to its return. */
  const InstanceGuard: seq<string> := ["{", FetchHook, GuardReplacer, "{", CallReplacer]
  /** Lines 181-185: `Before` and the unhook. */
  const InstanceBefore: seq<string> := ["}", "", BeforeInstance, "", UnhookStatement]
  /** Lines 187-191: the re-hook and `After`. */
  const InstanceAfter: seq<string> := ["", RehookStatement, "", AfterInstance, ""]
  /** Lines 193-195: between the two routines. */
  const Between: seq<string> := ["}", "", NoInliningAttribute]
  /** Lines 197-201. */
  const StaticBefore: seq<string> := ["{", FetchHook, BeforeStatic, "", UnhookStatement]
  /** Lines 203-207. */
  const StaticAfter: seq<string> := ["", RehookStatement, "", AfterStatic, ""]
  /** Lines 209-211. */
  const Closing: seq<string> := ["}", "}", ""]

  /** The template's lines around its seven placeholder lines. */
  function Skeleton(h: Holes): seq<string>
  {
    Opening + [h.instanceHeader] + InstanceGuard + [h.defaultReturn] + InstanceBefore + [h.instanceCall]
    + InstanceAfter + [h.instanceReturn] + Between + [h.staticHeader] + StaticBefore + [h.staticCall]
    + StaticAfter + [h.staticReturn] + Closing
  }

  /** A routine header: `<modifiers> <type> <name>(<parameters>)`. */
  function Signature(modifiers: string, returnType: string, name: string, parameters: string): string
  {
    modifiers + " " + returnType + " " + name + "(" + parameters + ")"
  }

  /** The part of the invocation line before the argument list. */
  function CallHead(receiver: string): string
  {
    "hook.Function.Invoke(" + receiver + ", new object[] "
  }

  /** The invocation of the original routine on `receiver` with `arguments`. */
  function Call(receiver: string, arguments: string): string
  {
    CallHead(receiver) + "{" + arguments + "}" + ");"
  }

  /** A return statement: `return <value>;`. */
  function ReturnOf(value: string): string
  {
    "return " + value + ";"
  }

  /** The invocation line of a routine with a result: the result variable, cast to the return type, takes `call`. */
  function Assigned(returnType: string, call: string): string
  {
    "var ret = (" + returnType + ")" + call
  }

  const DefaultReturn: string := ReturnOf(DefaultReturnTypePlaceholder)

  /** The template, lines 166-211 of Hook.cs. */
  const TemplateHoles: Holes := Holes(
    Signature("private", ReturnTypePlaceholder, "MyInstanceHook", ParametersTypesPlaceholder),
    DefaultReturn,
    ReturnAssignment + Call("this", ParametersPlaceholder),
    ReturnStatement,
    Signature("private static", ReturnTypePlaceholder, "MyStaticHook", ParametersTypesPlaceholder),
    ReturnAssignment + Call("null", ParametersPlaceholder),
    ReturnStatement)

  function Template(): string
  {
    Lines(Skeleton(TemplateHoles))
  }

  /** A fixed line: no underscore, so no placeholder, and no `return ret;`. */
  ghost predicate Plain(line: string)
  {
    '_' !in line && Absent(line, ReturnStatement)
  }

  ghost predicate AllPlain(ls: seq<string>)
  {
    forall i :: 0 <= i < |ls| ==> Plain(ls[i])
  }

  /** Text with neither an underscore nor a semicolon. */
  ghost predicate Bare(s: string)
  {
    forall i :: 0 <= i < |s| ==> s[i] != '_' && s[i] != ';'
  }

  lemma BareJoin(a: string, b: string)
    requires Bare(a) && Bare(b)
    ensures Bare(a + b)
  {
    forall i | 0 <= i < |a + b| ensures (a + b)[i] != '_' && (a + b)[i] != ';' {
      if i >= |a| {
        assert (a + b)[i] == b[i - |a|];
      }
    }
  }

  lemma BareLacks(s: string)
    requires Bare(s)
    ensures '_' !in s && ';' !in s
  {
  }

  lemma PlainWithoutSemicolon(line: string)
    requires Bare(line)
    ensures Plain(line)
  {
    BareLacks(line);
    AbsentMissing(line, ReturnStatement, ';');
  }

  /** A statement ending in `)` and followed by a comment is plain. */
  lemma PlainCommented(code: string, comment: string)
    requires Bare(code) && Bare(comment) && |code| > 0 && code[|code| - 1] == ')'
    ensures Plain(code + ";" + comment)
  {
    BareLacks(code);
    BareLacks(comment);
    StatementAbsent(code, ';', comment, ReturnStatement);
  }

  /** A statement ending in `)` is plain. */
  lemma PlainStatement(code: string)
    requires Bare(code) && |code| > 0 && code[|code| - 1] == ')'
    ensures Plain(code + ";")
  {
    BareLacks(code);
    StatementAbsent(code, ';', "", ReturnStatement);
    assert code + ";" == code + [';'] + "";
  }

  /** A `using` directive is plain: its `;` follows a letter other than `t`. */
  lemma PlainUsing(directive: string)
    requires Bare(directive) && |directive| > 0 && directive[|directive| - 1] != 't'
    ensures Plain(directive + ";")
  {
    BareLacks(directive);
    StatementAbsent(directive, ';', "", ReturnStatement);
    assert directive + ";" == directive + [';'] + "";
  }

  // The pieces of the fixed lines, each free of underscores and semicolons.

  lemma HandlerBare()
    ensures Bare("hook.HookHandler") && Bare(".Before(this)") && Bare(".Before(null)")
    ensures Bare(".After(this)") && Bare(".After(null)")
  {
  }

  lemma HookManagerInstanceBare() ensures Bare(HookManagerInstance)
  {
    assert Bare("HookManager");
    assert Bare(".Instance");
    BareJoin("HookManager", ".Instance");
  }

  lemma FetchHookCallBare() ensures Bare(FetchHookCall)
  {
    HookManagerInstanceBare();
    assert Bare("var hook = ");
    assert Bare(".GetHook(");
    assert Bare("(IntPtr)Hook");
    assert Bare(".GetRBX())");
    BareJoin("var hook = ", HookManagerInstance);
    BareJoin("var hook = " + HookManagerInstance, ".GetHook(");
    BareJoin("var hook = " + HookManagerInstance + ".GetHook(", "(IntPtr)Hook");
    BareJoin("var hook = " + HookManagerInstance + ".GetHook(" + "(IntPtr)Hook", ".GetRBX())");
  }

  lemma FetchHookPlain() ensures Plain(FetchHook)
  {
    FetchHookCallBare();
    PlainStatement(FetchHookCall);
  }

  lemma ReplacerBare() ensures Bare(GuardReplacer) && Bare(CallReplacerCall)
  {
    assert Bare("if (hook");
    assert Bare(".FunctionReplacer");
    assert Bare(" != null)");
    assert Bare("hook");
    assert Bare(".NewFunction(this)");
    BareJoin("if (hook", ".FunctionReplacer");
    BareJoin("if (hook" + ".FunctionReplacer", " != null)");
    BareJoin("hook", ".FunctionReplacer");
    BareJoin("hook" + ".FunctionReplacer", ".NewFunction(this)");
  }

  lemma CallReplacerPlain() ensures Plain(CallReplacer)
  {
    ReplacerBare();
    PlainStatement(CallReplacerCall);
  }

  lemma BeforeInstanceCommentBare() ensures Bare(BeforeInstanceComment)
  {
    var p0, p1, p2, p3 := " // The \"this\"", " here is", " the caller", " instance,";
    var p4, p5, p6, p7 := " this is not", " the current", " class", " \"MyProgram\"";
    assert Bare(p0) && Bare(p1) && Bare(p2) && Bare(p3);
    assert Bare(p4) && Bare(p5) && Bare(p6) && Bare(p7);
    BareJoin(p0, p1);
    BareJoin(p0 + p1, p2);
    BareJoin(p0 + p1 + p2, p3);
    BareJoin(p0 + p1 + p2 + p3, p4);
    BareJoin(p0 + p1 + p2 + p3 + p4, p5);
    BareJoin(p0 + p1 + p2 + p3 + p4 + p5, p6);
    BareJoin(p0 + p1 + p2 + p3 + p4 + p5 + p6, p7);
  }

  lemma BeforeInstancePlain() ensures Plain(BeforeInstance)
  {
    HandlerBare();
    BareJoin("hook.HookHandler", ".Before(this)");
    BeforeInstanceCommentBare();
    PlainCommented(BeforeInstanceCall, BeforeInstanceComment);
  }

  lemma BeforeStaticCommentBare() ensures Bare(BeforeStaticComment)
  {
    var p0, p1, p2, p3 := " // the instance", " is null", " for static", " methods";
    assert Bare(p0) && Bare(p1) && Bare(p2) && Bare(p3);
    BareJoin(p0, p1);
    BareJoin(p0 + p1, p2);
    BareJoin(p0 + p1 + p2, p3);
  }

  lemma BeforeStaticPlain() ensures Plain(BeforeStatic)
  {
    HandlerBare();
    BareJoin("hook.HookHandler", ".Before(null)");
    BeforeStaticCommentBare();
    PlainCommented(BeforeStaticCall, BeforeStaticComment);
  }

  lemma UnhookPlain() ensures Plain(UnhookStatement)
  {
    HookManagerInstanceBare();
    assert Bare(".UnHookFunction");
    assert Bare("(hook)");
    BareJoin(HookManagerInstance, ".UnHookFunction");
    BareJoin(HookManagerInstance + ".UnHookFunction", "(hook)");
    PlainStatement(UnhookCall);
  }

  lemma RehookCallBare() ensures Bare(RehookCall)
  {
    HookManagerInstanceBare();
    assert Bare(".HookFunction(");
    assert Bare("hook.Function, ");
    assert Bare("hook.HookHandler)");
    BareJoin(HookManagerInstance, ".HookFunction(");
    BareJoin(HookManagerInstance + ".HookFunction(", "hook.Function, ");
    BareJoin(HookManagerInstance + ".HookFunction(" + "hook.Function, ", "hook.HookHandler)");
  }

  lemma RehookPlain() ensures Plain(RehookStatement)
  {
    RehookCallBare();
    PlainStatement(RehookCall);
  }

  lemma AfterInstancePlain() ensures Plain(AfterInstance)
  {
    HandlerBare();
    BareJoin("hook.HookHandler", ".After(this)");
    PlainStatement(AfterInstanceCall);
  }

  lemma AfterStaticPlain() ensures Plain(AfterStatic)
  {
    HandlerBare();
    BareJoin("hook.HookHandler", ".After(null)");
    PlainStatement(AfterStaticCall);
  }

  lemma BracesPlain() ensures Plain("") && Plain("{") && Plain("}")
  {
    PlainWithoutSemicolon("");
    PlainWithoutSemicolon("{");
    PlainWithoutSemicolon("}");
  }

  lemma ClassPlain() ensures Plain(ClassHeader)
  {
    assert Bare("public class");
    assert Bare(" MyProgram");
    BareJoin("public class", " MyProgram");
    PlainWithoutSemicolon(ClassHeader);
  }

  lemma AttributePlain() ensures Plain(NoInliningAttribute)
  {
    assert Bare("[MethodImpl(");
    assert Bare("MethodImplOptions");
    assert Bare(".NoInlining)]");
    BareJoin("[MethodImpl(", "MethodImplOptions");
    BareJoin("[MethodImpl(" + "MethodImplOptions", ".NoInlining)]");
    PlainWithoutSemicolon(NoInliningAttribute);
  }

  lemma GuardPlain() ensures Plain(GuardReplacer)
  {
    ReplacerBare();
    PlainWithoutSemicolon(GuardReplacer);
  }

  lemma UsingSystemPlain() ensures Plain(UsingSystem + ";")
  {
    assert Bare(UsingSystem);
    PlainUsing(UsingSystem);
  }

  lemma UsingCompilerServicesPlain() ensures Plain(UsingCompilerServices + ";")
  {
    assert Bare("using System");
    assert Bare(".Runtime");
    assert Bare(".CompilerServices");
    BareJoin("using System", ".Runtime");
    BareJoin("using System" + ".Runtime", ".CompilerServices");
    PlainUsing(UsingCompilerServices);
  }

  lemma UsingManagedHookPlain() ensures Plain(UsingManagedHook + ";")
  {
    assert Bare(UsingManagedHook);
    PlainUsing(UsingManagedHook);
  }

  lemma FixedLinesPlain()
    ensures AllPlain(Opening) && AllPlain(InstanceGuard) && AllPlain(InstanceBefore) && AllPlain(InstanceAfter)
    ensures AllPlain(Between) && AllPlain(StaticBefore) && AllPlain(StaticAfter) && AllPlain(Closing)
  {
    FetchHookPlain();
    CallReplacerPlain();
    BeforeInstancePlain();
    BeforeStaticPlain();
    UnhookPlain();
    RehookPlain();
    AfterInstancePlain();
    AfterStaticPlain();
    BracesPlain();
    ClassPlain();
    AttributePlain();
    GuardPlain();
    UsingSystemPlain();
    UsingCompilerServicesPlain();
    UsingManagedHookPlain();
  }

  /** A plain line contains none of the patterns the builders replace. */
  lemma PlainAbsent(line: string, pat: string)
    requires Plain(line) && ('_' in pat || pat == ReturnStatement)
    ensures Absent(line, pat)
  {
    if '_' in pat {
      AbsentMissing(line, pat, '_');
    }
  }

  lemma BlockUnchanged(ls: seq<string>, pat: string, rep: string)
    requires AllPlain(ls) && |pat| > 0 && ('_' in pat || pat == ReturnStatement)
    ensures ReplaceEach(ls, pat, rep) == ls
  {
    forall i | 0 <= i < |ls| ensures Absent(ls[i], pat) {
      PlainAbsent(ls[i], pat);
    }
    ReplaceEachAbsent(ls, pat, rep);
  }

  /** Replacing in lines that end with one more line. */
  lemma ReplaceEachSnoc(ls: seq<string>, x: string, pat: string, rep: string)
    requires |pat| > 0
    ensures ReplaceEach(ls + [x], pat, rep) == ReplaceEach(ls, pat, rep) + [Replace(x, pat, rep)]
  {
  }

  /** Replacing in lines that end with a block the replacement leaves alone. */
  lemma ReplaceEachKeeps(ls: seq<string>, block: seq<string>, pat: string, rep: string)
    requires |pat| > 0 && ReplaceEach(block, pat, rep) == block
    ensures ReplaceEach(ls + block, pat, rep) == ReplaceEach(ls, pat, rep) + block
  {
    ReplaceEachAppend(ls, block, pat, rep);
  }

  /**
   * One replacement over the whole template text acts on the seven
   * placeholder lines only: the fixed lines contain no pattern.
   */
  lemma ReplaceSkeleton(h: Holes, pat: string, rep: string)
    requires |pat| > 0 && '\n' !in pat && ('_' in pat || pat == ReturnStatement)
    ensures Replace(Lines(Skeleton(h)), pat, rep) == Lines(Skeleton(h.Replaced(pat, rep)))
  {
    FixedLinesPlain();
    ReplaceLines(Skeleton(h), pat, rep);
    BlockUnchanged(Opening, pat, rep);
    BlockUnchanged(InstanceGuard, pat, rep);
    BlockUnchanged(InstanceBefore, pat, rep);
    BlockUnchanged(InstanceAfter, pat, rep);
    BlockUnchanged(Between, pat, rep);
    BlockUnchanged(StaticBefore, pat, rep);
    BlockUnchanged(StaticAfter, pat, rep);
    BlockUnchanged(Closing, pat, rep);
    var r := h.Replaced(pat, rep);
    var s0 := Opening;
    var s1 := s0 + [h.instanceHeader];
    ReplaceEachSnoc(s0, h.instanceHeader, pat, rep);
    var s2 := s1 + InstanceGuard;
    ReplaceEachKeeps(s1, InstanceGuard, pat, rep);
    var s3 := s2 + [h.defaultReturn];
    ReplaceEachSnoc(s2, h.defaultReturn, pat, rep);
    var s4 := s3 + InstanceBefore;
    ReplaceEachKeeps(s3, InstanceBefore, pat, rep);
    var s5 := s4 + [h.instanceCall];
    ReplaceEachSnoc(s4, h.instanceCall, pat, rep);
    var s6 := s5 + InstanceAfter;
    ReplaceEachKeeps(s5, InstanceAfter, pat, rep);
    var s7 := s6 + [h.instanceReturn];
    ReplaceEachSnoc(s6, h.instanceReturn, pat, rep);
    var s8 := s7 + Between;
    ReplaceEachKeeps(s7, Between, pat, rep);
    var s9 := s8 + [h.staticHeader];
    ReplaceEachSnoc(s8, h.staticHeader, pat, rep);
    var s10 := s9 + StaticBefore;
    ReplaceEachKeeps(s9, StaticBefore, pat, rep);
    var s11 := s10 + [h.staticCall];
    ReplaceEachSnoc(s10, h.staticCall, pat, rep);
    var s12 := s11 + StaticAfter;
    ReplaceEachKeeps(s11, StaticAfter, pat, rep);
    var s13 := s12 + [h.staticReturn];
    ReplaceEachSnoc(s12, h.staticReturn, pat, rep);
    ReplaceEachKeeps(s13, Closing, pat, rep);
    assert Skeleton(h) == s13 + Closing;
  }

  /** No placeholder can start anywhere in `s`. */
  ghost predicate MarkerFree(s: string)
  {
    Absent(s, Marker)
  }

  /**
   * A type name that can be substituted safely: it contains no placeholder
   * and no `;` (no .NET type name contains either).
   */
  ghost predicate PlainName(s: string)
  {
    MarkerFree(s) && ';' !in s
  }

  lemma NoUnderscore(s: string)
    requires '_' !in s
    ensures MarkerFree(s)
  {
    AbsentMissing(s, Marker, '_');
  }

  lemma MarkerFreeJoin(a: string, c: char, b: string)
    requires MarkerFree(a) && MarkerFree(b) && c != '_' && !('a' <= c <= 'z')
    ensures MarkerFree(a + [c] + b)
  {
    PlaceholderLacks(c);
    AbsentSplit(a, c, b, Marker);
  }

  /** A text free of the marker is free of every placeholder, and of the result assignment. */
  lemma MarkerFreeAbsent(s: string)
    requires MarkerFree(s)
    ensures Absent(s, ParametersTypesPlaceholder) && Absent(s, ParametersPlaceholder)
    ensures Absent(s, ReturnTypePlaceholder) && Absent(s, DefaultReturnTypePlaceholder)
    ensures Absent(s, ReturnAssignment)
  {
    AbsentWithin(s, Marker, ParametersTypesPlaceholder, 0);
    AbsentWithin(s, Marker, ParametersPlaceholder, 0);
    AbsentWithin(s, Marker, ReturnTypePlaceholder, 0);
    AbsentWithin(s, Marker, DefaultReturnTypePlaceholder, 0);
    AbsentWithin(s, Marker, ReturnAssignment, 11);
  }

  lemma SignatureMarkerFree(modifiers: string, returnType: string, name: string, parameters: string)
    requires '_' !in modifiers && '_' !in name && MarkerFree(returnType) && MarkerFree(parameters)
    ensures MarkerFree(Signature(modifiers, returnType, name, parameters))
  {
    NoUnderscore(modifiers);
    NoUnderscore(name);
    NoUnderscore("");
    MarkerFreeJoin(modifiers, ' ', returnType);
    MarkerFreeJoin(modifiers + " " + returnType, ' ', name);
    MarkerFreeJoin(modifiers + " " + returnType + " " + name, '(', parameters);
    MarkerFreeJoin(modifiers + " " + returnType + " " + name + "(" + parameters, ')', "");
    assert Signature(modifiers, returnType, name, parameters)
      == modifiers + " " + returnType + " " + name + "(" + parameters + [')'] + "";
  }

  lemma ReturnOfShape(value: string)
    ensures ReturnOf(value) == "return" + [' '] + value + [';'] + ""
  {
  }

  lemma AssignedShape(returnType: string, call: string)
    ensures Assigned(returnType, call) == "var ret = " + ['('] + returnType + [')'] + call
    ensures Assigned(returnType, call) == ("var ret = (" + returnType) + [')'] + call
  {
  }

  lemma ReturnOfMarkerFree(value: string)
    requires MarkerFree(value)
    ensures MarkerFree(ReturnOf(value))
  {
    NoUnderscore("return");
    NoUnderscore("");
    MarkerFreeJoin("return", ' ', value);
    MarkerFreeJoin("return" + [' '] + value, ';', "");
    ReturnOfShape(value);
  }

  lemma DefaultValueMarkerFree(returnType: string)
    requires MarkerFree(returnType)
    ensures MarkerFree(DefaultValue(returnType))
  {
    NoUnderscore("default");
    NoUnderscore("");
    MarkerFreeJoin("default", '(', returnType);
    MarkerFreeJoin("default" + ['('] + returnType, ')', "");
    assert DefaultValue(returnType) == "default" + ['('] + returnType + [')'] + "";
  }

  /** The result assignment, once typed, is free of the marker. */
  lemma TypedAssignmentMarkerFree(returnType: string)
    requires MarkerFree(returnType)
    ensures MarkerFree("var ret = (" + returnType)
  {
    NoUnderscore("var ret = ");
    MarkerFreeJoin("var ret = ", '(', returnType);
    assert "var ret = (" == "var ret = " + ['('];
  }

  // How each placeholder line fares under each replacement.

  /** The part of a header after its return type. */
  lemma HeaderTailMarkerFree(name: string, parameters: string)
    requires '_' !in name && MarkerFree(parameters)
    ensures MarkerFree(name + "(" + parameters + ")")
  {
    NoUnderscore(name);
    NoUnderscore("");
    MarkerFreeJoin(name, '(', parameters);
    MarkerFreeJoin(name + "(" + parameters, ')', "");
    assert name + "(" + parameters + ")" == name + "(" + parameters + [')'] + "";
  }

  /** A header, cut at the spaces around its return type and at its parentheses. */
  lemma SignatureShape(modifiers: string, returnType: string, name: string, parameters: string)
    ensures Signature(modifiers, returnType, name, parameters)
              == modifiers + [' '] + returnType + [' '] + (name + "(" + parameters + ")")
    ensures Signature(modifiers, returnType, name, parameters)
              == (modifiers + " " + returnType + " " + name) + ['('] + parameters + [')'] + ""
  {
  }

  /** A pattern that fills a header's parameter slot, and occurs nowhere else in it, is replaced there alone. */
  lemma SignatureParametersReplaced(modifiers: string, returnType: string, name: string, pat: string, rep: string)
    requires |pat| > 0 && ' ' !in pat && '(' !in pat && ')' !in pat
    requires Absent(modifiers, pat) && Absent(returnType, pat) && Absent(name, pat)
    ensures Replace(Signature(modifiers, returnType, name, pat), pat, rep) == Signature(modifiers, returnType, name, rep)
  {
    var x := modifiers + " " + returnType + " " + name;
    AbsentSplit(modifiers, ' ', returnType, pat);
    AbsentSplit(modifiers + [' '] + returnType, ' ', name, pat);
    assert x == modifiers + [' '] + returnType + [' '] + name;
    AbsentShort("", pat);
    ReplaceBetween(x, '(', ')', "", pat, rep);
    SignatureShape(modifiers, returnType, name, pat);
    SignatureShape(modifiers, returnType, name, rep);
  }

  /** The parameter list goes between the header's parentheses. */
  lemma HeaderTypes(modifiers: string, name: string, parameters: string)
    requires '_' !in modifiers && '_' !in name
    ensures Replace(Signature(modifiers, ReturnTypePlaceholder, name, ParametersTypesPlaceholder), ParametersTypesPlaceholder, parameters)
              == Signature(modifiers, ReturnTypePlaceholder, name, parameters)
  {
    var pat := ParametersTypesPlaceholder;
    NoUnderscore(modifiers);
    MarkerFreeAbsent(modifiers);
    AbsentShort(ReturnTypePlaceholder, pat);
    NoUnderscore(name);
    MarkerFreeAbsent(name);
    PlaceholderLacks(' ');
    PlaceholderLacks('(');
    PlaceholderLacks(')');
    SignatureParametersReplaced(modifiers, ReturnTypePlaceholder, name, pat, parameters);
  }

  /** A header whose parameters are filled holds no result assignment. */
  lemma HeaderNoAssignment(modifiers: string, name: string, parameters: string)
    requires '_' !in modifiers && '=' !in modifiers && '_' !in name && |name| > 0 && name[0] !in ReturnAssignment
    requires MarkerFree(parameters)
    ensures Absent(Signature(modifiers, ReturnTypePlaceholder, name, parameters), ReturnAssignment)
  {
    var front := modifiers + " " + ReturnTypePlaceholder + " ";
    var back := name[1..] + "(" + parameters + ")";
    AbsentMissing(front, ReturnAssignment, '=');
    HeaderTailMarkerFree(name[1..], parameters);
    MarkerFreeAbsent(back);
    AbsentSplit(front, name[0], back, ReturnAssignment);
    assert name == [name[0]] + name[1..];
    assert Signature(modifiers, ReturnTypePlaceholder, name, parameters) == front + [name[0]] + back;
  }

  /** Nor the default-value placeholder. */
  lemma HeaderNoDefault(modifiers: string, name: string, parameters: string)
    requires '_' !in modifiers && '_' !in name && MarkerFree(parameters)
    ensures Absent(Signature(modifiers, ReturnTypePlaceholder, name, parameters), DefaultReturnTypePlaceholder)
  {
    var front := modifiers + " " + ReturnTypePlaceholder;
    var back := name + "(" + parameters + ")";
    AbsentMissing(modifiers, DefaultReturnTypePlaceholder, '_');
    AbsentShort(ReturnTypePlaceholder, DefaultReturnTypePlaceholder);
    AbsentSplit(modifiers, ' ', ReturnTypePlaceholder, DefaultReturnTypePlaceholder);
    HeaderTailMarkerFree(name, parameters);
    MarkerFreeAbsent(back);
    AbsentSplit(front, ' ', back, DefaultReturnTypePlaceholder);
    assert Signature(modifiers, ReturnTypePlaceholder, name, parameters) == front + [' '] + back;
  }

  /** A pattern that fills a header's return-type slot, and occurs nowhere else in it, is replaced there alone. */
  lemma SignatureTypeReplaced(modifiers: string, name: string, parameters: string, pat: string, rep: string)
    requires |pat| > 0 && ' ' !in pat
    requires Absent(modifiers, pat) && Absent(name + "(" + parameters + ")", pat)
    ensures Replace(Signature(modifiers, pat, name, parameters), pat, rep) == Signature(modifiers, rep, name, parameters)
  {
    ReplaceBetween(modifiers, ' ', ' ', name + "(" + parameters + ")", pat, rep);
    SignatureShape(modifiers, pat, name, parameters);
    SignatureShape(modifiers, rep, name, parameters);
  }

  /** The return type goes after the modifiers. */
  lemma HeaderReturnType(modifiers: string, name: string, parameters: string, returnType: string)
    requires '_' !in modifiers && '_' !in name && MarkerFree(parameters)
    ensures Replace(Signature(modifiers, ReturnTypePlaceholder, name, parameters), ReturnTypePlaceholder, returnType)
              == Signature(modifiers, returnType, name, parameters)
  {
    var back := name + "(" + parameters + ")";
    AbsentMissing(modifiers, ReturnTypePlaceholder, '_');
    HeaderTailMarkerFree(name, parameters);
    MarkerFreeAbsent(back);
    PlaceholderLacks(' ');
    SignatureTypeReplaced(modifiers, name, parameters, ReturnTypePlaceholder, returnType);
  }

  /** The default return holds neither the parameter list nor the result assignment. */
  lemma DefaultReturnUntouched()
    ensures Absent(DefaultReturn, ParametersTypesPlaceholder) && Absent(DefaultReturn, ReturnAssignment)
  {
    DefaultReturnWithoutS();
    DefaultReturnWithoutV();
    assert DefaultReturn == "return " + (Marker + "default_return_type") + ";";
    assert ParametersTypesPlaceholder[31] == 's';
    assert ReturnAssignment[0] == 'v';
    AbsentMissing(DefaultReturn, ParametersTypesPlaceholder, 's');
    AbsentMissing(DefaultReturn, ReturnAssignment, 'v');
  }

  lemma DefaultReturnWithoutS()
    ensures 's' !in "return " && 's' !in Marker && 's' !in "default_return_type" && 's' !in ";"
  {
  }

  lemma DefaultReturnWithoutV()
    ensures 'v' !in "return " && 'v' !in Marker && 'v' !in "default_return_type" && 'v' !in ";"
  {
  }

  /** `replace_me_with_return_type` does not occur inside `replace_me_with_default_return_type`. */
  lemma ReturnTypeNotInDefault()
    ensures Absent(DefaultReturnTypePlaceholder, ReturnTypePlaceholder)
  {
    var d := DefaultReturnTypePlaceholder;
    var r := ReturnTypePlaceholder;
    forall i: nat ensures !MatchAt(d, r, i) {
      if i == 0 {
        assert d[16] == 'd' && r[16] == 'r';
      } else if i <= 8 {
        assert d[i] != 'r' && r[0] == 'r';
      }
    }
  }

  lemma DefaultReturnNoReturnType()
    ensures Absent(DefaultReturn, ReturnTypePlaceholder)
  {
    ReturnTypeNotInDefault();
    AbsentShort("return", ReturnTypePlaceholder);
    AbsentShort("", ReturnTypePlaceholder);
    PlaceholderLacks(' ');
    PlaceholderLacks(';');
    AbsentSplit("return", ' ', DefaultReturnTypePlaceholder, ReturnTypePlaceholder);
    AbsentSplit("return" + [' '] + DefaultReturnTypePlaceholder, ';', "", ReturnTypePlaceholder);
    ReturnOfShape(DefaultReturnTypePlaceholder);
  }

  /** The default value goes between `return ` and `;`. */
  lemma DefaultReturnFilled(value: string)
    ensures Replace(DefaultReturn, DefaultReturnTypePlaceholder, value) == ReturnOf(value)
  {
    AbsentShort("return", DefaultReturnTypePlaceholder);
    AbsentShort("", DefaultReturnTypePlaceholder);
    PlaceholderLacks(' ');
    PlaceholderLacks(';');
    ReplaceBetween("return", ' ', ';', "", DefaultReturnTypePlaceholder, value);
    ReturnOfShape(DefaultReturnTypePlaceholder);
    ReturnOfShape(value);
  }

  /** `return ret;` holds no placeholder, and is deleted whole. */
  lemma ReturnStatementFacts()
    ensures MarkerFree(ReturnStatement)
    ensures Replace(ReturnStatement, ReturnStatement, "") == ""
  {
    NoUnderscore(ReturnStatement);
    ReplaceWhole(ReturnStatement, "");
  }

  /** The invocation line before its arguments are filled holds no placeholder longer than the argument one. */
  lemma CallWithoutLonger(receiver: string, pat: string)
    requires '_' !in receiver && '_' in pat && '{' !in pat && '}' !in pat && |ParametersPlaceholder| < |pat|
    ensures Absent(Call(receiver, ParametersPlaceholder), pat)
  {
    AbsentMissing(CallHead(receiver), pat, '_');
    AbsentShort(ParametersPlaceholder, pat);
    AbsentMissing(");", pat, '_');
    AbsentSplit(ParametersPlaceholder, '}', ");", pat);
    AbsentSplit(CallHead(receiver), '{', ParametersPlaceholder + ['}'] + ");", pat);
    assert Call(receiver, ParametersPlaceholder) == CallHead(receiver) + ['{'] + (ParametersPlaceholder + ['}'] + ");");
  }

  /** The invocation line is untouched by every replacement but the argument one. */
  lemma CallUntouched(receiver: string)
    requires '_' !in receiver && 'd' !in receiver && ';' !in receiver
    ensures Absent(Call(receiver, ParametersPlaceholder), ParametersTypesPlaceholder)
    ensures Absent(Call(receiver, ParametersPlaceholder), ReturnTypePlaceholder)
    ensures Absent(Call(receiver, ParametersPlaceholder), ReturnAssignment)
    ensures Absent(Call(receiver, ParametersPlaceholder), DefaultReturnTypePlaceholder)
    ensures Absent(Call(receiver, ParametersPlaceholder), ReturnStatement)
  {
    CallWithoutLonger(receiver, ParametersTypesPlaceholder);
    CallWithoutAssignment(receiver);
    CallWithoutDefault(receiver);
    CallWithoutReturn(receiver);
  }

  lemma CallWithoutAssignment(receiver: string)
    requires '_' !in receiver
    ensures Absent(Call(receiver, ParametersPlaceholder), ReturnTypePlaceholder)
    ensures Absent(Call(receiver, ParametersPlaceholder), ReturnAssignment)
  {
    CallWithoutLonger(receiver, ReturnTypePlaceholder);
    AbsentWithin(Call(receiver, ParametersPlaceholder), ReturnTypePlaceholder, ReturnAssignment, 11);
  }

  lemma CallWithoutDefault(receiver: string)
    requires 'd' !in receiver
    ensures Absent(Call(receiver, ParametersPlaceholder), DefaultReturnTypePlaceholder)
  {
    var c := Call(receiver, ParametersPlaceholder);
    CallWithoutD();
    assert c == CallHead(receiver) + "{" + Marker + "parameters" + "}" + ");";
    assert DefaultReturnTypePlaceholder[16] == 'd';
    AbsentMissing(c, DefaultReturnTypePlaceholder, 'd');
  }

  lemma CallWithoutD()
    ensures 'd' !in "hook.Function.Invoke(" && 'd' !in ", new object[] "
    ensures 'd' !in Marker && 'd' !in "parameters"
  {
  }

  lemma CallWithoutReturn(receiver: string)
    requires ';' !in receiver
    ensures Absent(Call(receiver, ParametersPlaceholder), ReturnStatement)
  {
    var code := CallHead(receiver) + "{" + ParametersPlaceholder + "})";
    StatementAbsent(code, ';', "", ReturnStatement);
    assert Call(receiver, ParametersPlaceholder) == code + [';'] + "";
  }

  /** The template's invocation line: the result assignment, then the invocation. */
  lemma InvocationUntouched(receiver: string)
    requires '_' !in receiver && 'd' !in receiver && ';' !in receiver
    ensures Absent(ReturnAssignment + Call(receiver, ParametersPlaceholder), ParametersTypesPlaceholder)
  {
    var pat := ParametersTypesPlaceholder;
    CallUntouched(receiver);
    AbsentMissing("var ret = ", pat, '_');
    AbsentShort(ReturnTypePlaceholder, pat);
    AbsentSplit("var ret = ", '(', ReturnTypePlaceholder, pat);
    AbsentSplit("var ret = " + "(" + ReturnTypePlaceholder, ')', Call(receiver, ParametersPlaceholder), pat);
    assert ReturnAssignment + Call(receiver, ParametersPlaceholder)
      == "var ret = " + "(" + ReturnTypePlaceholder + [')'] + Call(receiver, ParametersPlaceholder);
  }

  /** Without a result the assignment is deleted and the bare invocation remains. */
  lemma InvocationUnassigned(receiver: string)
    requires '_' !in receiver && 'd' !in receiver && ';' !in receiver
    ensures Replace(ReturnAssignment + Call(receiver, ParametersPlaceholder), ReturnAssignment, "")
              == Call(receiver, ParametersPlaceholder)
  {
    var c := Call(receiver, ParametersPlaceholder);
    CallUntouched(receiver);
    ReplaceLeadOnly(ReturnAssignment, c, "");
    assert "" + c == c;
  }

  lemma AssignmentShape(call: string)
    ensures ReturnAssignment + call == Assigned(ReturnTypePlaceholder, call)
  {
  }

  /** With a result the assignment casts to the return type. */
  lemma InvocationTyped(receiver: string, returnType: string)
    requires '_' !in receiver && 'd' !in receiver && ';' !in receiver
    ensures Replace(ReturnAssignment + Call(receiver, ParametersPlaceholder), ReturnTypePlaceholder, returnType)
              == Assigned(returnType, Call(receiver, ParametersPlaceholder))
  {
    var c := Call(receiver, ParametersPlaceholder);
    CallWithoutAssignment(receiver);
    AbsentMissing("var ret = ", ReturnTypePlaceholder, '_');
    PlaceholderLacks('(');
    PlaceholderLacks(')');
    ReplaceBetween("var ret = ", '(', ')', c, ReturnTypePlaceholder, returnType);
    AssignmentShape(c);
    AssignedShape(ReturnTypePlaceholder, c);
    AssignedShape(returnType, c);
  }

  /** The typed invocation line holds no default-value placeholder. */
  lemma TypedInvocationNoDefault(receiver: string, returnType: string)
    requires '_' !in receiver && 'd' !in receiver && ';' !in receiver && MarkerFree(returnType)
    ensures Absent(Assigned(returnType, Call(receiver, ParametersPlaceholder)), DefaultReturnTypePlaceholder)
  {
    CallUntouched(receiver);
    TypedAssignmentMarkerFree(returnType);
    MarkerFreeAbsent("var ret = (" + returnType);
    PlaceholderLacks(')');
    AbsentSplit("var ret = (" + returnType, ')', Call(receiver, ParametersPlaceholder), DefaultReturnTypePlaceholder);
    AssignedShape(returnType, Call(receiver, ParametersPlaceholder));
  }

  /** The arguments go between the braces of the argument array. */
  lemma CallArguments(receiver: string, arguments: string)
    requires '_' !in receiver
    ensures Replace(Call(receiver, ParametersPlaceholder), ParametersPlaceholder, arguments) == Call(receiver, arguments)
  {
    AbsentMissing(CallHead(receiver), ParametersPlaceholder, '_');
    AbsentMissing(");", ParametersPlaceholder, '_');
    PlaceholderLacks('{');
    PlaceholderLacks('}');
    ReplaceBetween(CallHead(receiver), '{', '}', ");", ParametersPlaceholder, arguments);
    assert Call(receiver, ParametersPlaceholder) == CallHead(receiver) + ['{'] + ParametersPlaceholder + ['}'] + ");";
    assert Call(receiver, arguments) == CallHead(receiver) + ['{'] + arguments + ['}'] + ");";
  }

  lemma TypedCallArguments(receiver: string, returnType: string, arguments: string)
    requires '_' !in receiver && MarkerFree(returnType)
    ensures Replace(Assigned(returnType, Call(receiver, ParametersPlaceholder)), ParametersPlaceholder, arguments)
              == Assigned(returnType, Call(receiver, arguments))
  {
    var front := "var ret = (" + returnType;
    TypedAssignmentMarkerFree(returnType);
    MarkerFreeAbsent(front);
    ReplaceAbsent(front, ParametersPlaceholder, arguments);
    CallArguments(receiver, arguments);
    PlaceholderLacks(')');
    ReplaceSplit(front, ')', Call(receiver, ParametersPlaceholder), ParametersPlaceholder, arguments);
    AssignedShape(returnType, Call(receiver, ParametersPlaceholder));
    AssignedShape(returnType, Call(receiver, arguments));
  }

  // The template line by line, one replacement at a time.

  /** The seven lines once the parameter list is filled. */
  function Typed(parameters: string): Holes
  {
    Holes(
      Signature("private", ReturnTypePlaceholder, "MyInstanceHook", parameters),
      DefaultReturn,
      ReturnAssignment + Call("this", ParametersPlaceholder),
      ReturnStatement,
      Signature("private static", ReturnTypePlaceholder, "MyStaticHook", parameters),
      ReturnAssignment + Call("null", ParametersPlaceholder),
      ReturnStatement)
  }

  /** The patterns are single-line, and all but `return ret;` contain an underscore. */
  lemma PatternsFit()
    ensures '\n' !in ParametersTypesPlaceholder && '_' in ParametersTypesPlaceholder
    ensures '\n' !in ParametersPlaceholder && '_' in ParametersPlaceholder
    ensures '\n' !in ReturnTypePlaceholder && '_' in ReturnTypePlaceholder
    ensures '\n' !in DefaultReturnTypePlaceholder && '_' in DefaultReturnTypePlaceholder
    ensures '\n' !in ReturnAssignment && '_' in ReturnAssignment
    ensures '\n' !in ReturnStatement
  {
    assert ParametersTypesPlaceholder[7] == '_';
    assert ParametersPlaceholder[7] == '_';
    assert ReturnTypePlaceholder[7] == '_';
    assert DefaultReturnTypePlaceholder[7] == '_';
    assert ReturnAssignment[18] == '_';
  }

  /** The words the template spells around its placeholders hold none of the characters the proofs rely on. */
  lemma TemplateWordsFit()
    ensures '_' !in "private" && '=' !in "private" && '_' !in "private static" && '=' !in "private static"
    ensures '_' !in "MyInstanceHook" && '_' !in "MyStaticHook"
    ensures "MyInstanceHook"[0] == 'M' && "MyStaticHook"[0] == 'M' && 'M' !in ReturnAssignment
    ensures '_' !in "this" && 'd' !in "this" && ';' !in "this"
    ensures '_' !in "null" && 'd' !in "null" && ';' !in "null"
    ensures '_' !in "void" && '_' !in ""
  {
    ModifiersFit();
    NamesFit();
    PlaceholderLacks('M');
    ReceiversFit();
  }

  lemma ModifiersFit()
    ensures '_' !in "private" && '=' !in "private" && '_' !in "private static" && '=' !in "private static"
  {
  }

  lemma NamesFit()
    ensures '_' !in "MyInstanceHook" && '_' !in "MyStaticHook"
  {
  }

  lemma ReceiversFit()
    ensures '_' !in "this" && 'd' !in "this" && ';' !in "this"
    ensures '_' !in "null" && 'd' !in "null" && ';' !in "null"
  {
  }

  lemma StageParameterTypes(parameters: string)
    ensures TemplateHoles.Replaced(ParametersTypesPlaceholder, parameters) == Typed(parameters)
  {
    TemplateWordsFit();
    var pat := ParametersTypesPlaceholder;
    HeaderTypes("private", "MyInstanceHook", parameters);
    HeaderTypes("private static", "MyStaticHook", parameters);
    DefaultReturnUntouched();
    ReplaceAbsent(DefaultReturn, pat, parameters);
    InvocationUntouched("this");
    ReplaceAbsent(ReturnAssignment + Call("this", ParametersPlaceholder), pat, parameters);
    InvocationUntouched("null");
    ReplaceAbsent(ReturnAssignment + Call("null", ParametersPlaceholder), pat, parameters);
    AbsentMissing(ReturnStatement, pat, '_');
    ReplaceAbsent(ReturnStatement, pat, parameters);
  }

  /** Text free of the marker survives every placeholder replacement. */
  lemma KeepMarkerFree(s: string, rep: string)
    requires MarkerFree(s)
    ensures Replace(s, ParametersTypesPlaceholder, rep) == s && Replace(s, ParametersPlaceholder, rep) == s
    ensures Replace(s, ReturnTypePlaceholder, rep) == s && Replace(s, DefaultReturnTypePlaceholder, rep) == s
    ensures Replace(s, ReturnAssignment, rep) == s
  {
    MarkerFreeAbsent(s);
    ReplaceAbsent(s, ParametersTypesPlaceholder, rep);
    ReplaceAbsent(s, ParametersPlaceholder, rep);
    ReplaceAbsent(s, ReturnTypePlaceholder, rep);
    ReplaceAbsent(s, DefaultReturnTypePlaceholder, rep);
    ReplaceAbsent(s, ReturnAssignment, rep);
  }

  /** The seven lines of a routine without a result, once its stripped lines are gone. */
  function Stripped(parameters: string): Holes
  {
    Holes(
      Signature("private", ReturnTypePlaceholder, "MyInstanceHook", parameters),
      ReturnOf(""),
      Call("this", ParametersPlaceholder),
      "",
      Signature("private static", ReturnTypePlaceholder, "MyStaticHook", parameters),
      Call("null", ParametersPlaceholder),
      "")
  }

  lemma StageStripAssignment(parameters: string)
    requires MarkerFree(parameters)
    ensures Typed(parameters).Replaced(ReturnAssignment, "")
              == Stripped(parameters).(defaultReturn := DefaultReturn, instanceReturn := ReturnStatement,
                                       staticReturn := ReturnStatement)
  {
    TemplateWordsFit();
    var pat := ReturnAssignment;
    HeaderNoAssignment("private", "MyInstanceHook", parameters);
    ReplaceAbsent(Signature("private", ReturnTypePlaceholder, "MyInstanceHook", parameters), pat, "");
    HeaderNoAssignment("private static", "MyStaticHook", parameters);
    ReplaceAbsent(Signature("private static", ReturnTypePlaceholder, "MyStaticHook", parameters), pat, "");
    DefaultReturnUntouched();
    ReplaceAbsent(DefaultReturn, pat, "");
    InvocationUnassigned("this");
    InvocationUnassigned("null");
    ReturnStatementFacts();
    KeepMarkerFree(ReturnStatement, "");
  }

  lemma StageStripDefault(parameters: string)
    requires MarkerFree(parameters)
    ensures Stripped(parameters).(defaultReturn := DefaultReturn, instanceReturn := ReturnStatement,
                                  staticReturn := ReturnStatement).Replaced(DefaultReturnTypePlaceholder, "")
              == Stripped(parameters).(instanceReturn := ReturnStatement, staticReturn := ReturnStatement)
  {
    TemplateWordsFit();
    var pat := DefaultReturnTypePlaceholder;
    HeaderNoDefault("private", "MyInstanceHook", parameters);
    ReplaceAbsent(Signature("private", ReturnTypePlaceholder, "MyInstanceHook", parameters), pat, "");
    HeaderNoDefault("private static", "MyStaticHook", parameters);
    ReplaceAbsent(Signature("private static", ReturnTypePlaceholder, "MyStaticHook", parameters), pat, "");
    DefaultReturnFilled("");
    CallWithoutDefault("this");
    ReplaceAbsent(Call("this", ParametersPlaceholder), pat, "");
    CallWithoutDefault("null");
    ReplaceAbsent(Call("null", ParametersPlaceholder), pat, "");
    ReturnStatementFacts();
    KeepMarkerFree(ReturnStatement, "");
  }

  lemma StageStripReturn(parameters: string)
    requires ';' !in parameters
    ensures Stripped(parameters).(instanceReturn := ReturnStatement, staticReturn := ReturnStatement)
              .Replaced(ReturnStatement, "") == Stripped(parameters)
  {
    TemplateWordsFit();
    var pat := ReturnStatement;
    var h1 := Signature("private", ReturnTypePlaceholder, "MyInstanceHook", parameters);
    var h2 := Signature("private static", ReturnTypePlaceholder, "MyStaticHook", parameters);
    AbsentMissing(h1, pat, ';');
    ReplaceAbsent(h1, pat, "");
    AbsentMissing(h2, pat, ';');
    ReplaceAbsent(h2, pat, "");
    ReplaceShort(ReturnOf(""), pat, "");
    CallWithoutReturn("this");
    ReplaceAbsent(Call("this", ParametersPlaceholder), pat, "");
    CallWithoutReturn("null");
    ReplaceAbsent(Call("null", ParametersPlaceholder), pat, "");
    ReturnStatementFacts();
  }

  /** The void routine once its return type is filled; the default value then finds nothing. */
  lemma StageVoidType(parameters: string)
    requires MarkerFree(parameters)
    ensures Stripped(parameters).Replaced(ReturnTypePlaceholder, "void")
              == Stripped(parameters).(instanceHeader := Signature("private", "void", "MyInstanceHook", parameters),
                                       staticHeader := Signature("private static", "void", "MyStaticHook", parameters))
  {
    TemplateWordsFit();
    var pat := ReturnTypePlaceholder;
    HeaderReturnType("private", "MyInstanceHook", parameters, "void");
    HeaderReturnType("private static", "MyStaticHook", parameters, "void");
    NoUnderscore("");
    ReturnOfMarkerFree("");
    KeepMarkerFree(ReturnOf(""), "void");
    CallWithoutAssignment("this");
    ReplaceAbsent(Call("this", ParametersPlaceholder), pat, "void");
    CallWithoutAssignment("null");
    ReplaceAbsent(Call("null", ParametersPlaceholder), pat, "void");
    ReplaceShort("", pat, "void");
  }

  /** The two headers of a routine, filled. */
  lemma HeadersMarkerFree(returnType: string, parameters: string)
    requires MarkerFree(returnType) && MarkerFree(parameters)
    ensures MarkerFree(Signature("private", returnType, "MyInstanceHook", parameters))
    ensures MarkerFree(Signature("private static", returnType, "MyStaticHook", parameters))
  {
    SignatureMarkerFree("private", returnType, "MyInstanceHook", parameters);
    SignatureMarkerFree("private static", returnType, "MyStaticHook", parameters);
  }

  lemma StageVoidDefault(parameters: string)
    requires MarkerFree(parameters)
    ensures var h := Stripped(parameters).(instanceHeader := Signature("private", "void", "MyInstanceHook", parameters),
                                           staticHeader := Signature("private static", "void", "MyStaticHook", parameters));
            h.Replaced(DefaultReturnTypePlaceholder, DefaultValue("void")) == h
  {
    TemplateWordsFit();
    var pat := DefaultReturnTypePlaceholder;
    NoUnderscore("void");
    HeadersMarkerFree("void", parameters);
    KeepMarkerFree(Signature("private", "void", "MyInstanceHook", parameters), DefaultValue("void"));
    KeepMarkerFree(Signature("private static", "void", "MyStaticHook", parameters), DefaultValue("void"));
    NoUnderscore("");
    ReturnOfMarkerFree("");
    KeepMarkerFree(ReturnOf(""), DefaultValue("void"));
    CallWithoutDefault("this");
    ReplaceAbsent(Call("this", ParametersPlaceholder), pat, DefaultValue("void"));
    CallWithoutDefault("null");
    ReplaceAbsent(Call("null", ParametersPlaceholder), pat, DefaultValue("void"));
    ReplaceShort("", pat, DefaultValue("void"));
  }

  lemma StageVoidArguments(parameters: string, arguments: string)
    requires MarkerFree(parameters)
    ensures var h := Stripped(parameters).(instanceHeader := Signature("private", "void", "MyInstanceHook", parameters),
                                           staticHeader := Signature("private static", "void", "MyStaticHook", parameters));
            h.Replaced(ParametersPlaceholder, arguments)
              == h.(instanceCall := Call("this", arguments), staticCall := Call("null", arguments))
  {
    TemplateWordsFit();
    NoUnderscore("void");
    HeadersMarkerFree("void", parameters);
    KeepMarkerFree(Signature("private", "void", "MyInstanceHook", parameters), arguments);
    KeepMarkerFree(Signature("private static", "void", "MyStaticHook", parameters), arguments);
    NoUnderscore("");
    ReturnOfMarkerFree("");
    KeepMarkerFree(ReturnOf(""), arguments);
    CallArguments("this", arguments);
    CallArguments("null", arguments);
    ReplaceShort("", ParametersPlaceholder, arguments);
  }

  /** A routine with a result, once its return type is filled. */
  function Returning(returnType: string, parameters: string): Holes
  {
    Holes(
      Signature("private", returnType, "MyInstanceHook", parameters),
      DefaultReturn,
      Assigned(returnType, Call("this", ParametersPlaceholder)),
      ReturnStatement,
      Signature("private static", returnType, "MyStaticHook", parameters),
      Assigned(returnType, Call("null", ParametersPlaceholder)),
      ReturnStatement)
  }

  lemma StageReturnType(returnType: string, parameters: string)
    requires MarkerFree(parameters)
    ensures Typed(parameters).Replaced(ReturnTypePlaceholder, returnType) == Returning(returnType, parameters)
  {
    TemplateWordsFit();
    HeaderReturnType("private", "MyInstanceHook", parameters, returnType);
    HeaderReturnType("private static", "MyStaticHook", parameters, returnType);
    DefaultReturnNoReturnType();
    ReplaceAbsent(DefaultReturn, ReturnTypePlaceholder, returnType);
    InvocationTyped("this", returnType);
    InvocationTyped("null", returnType);
    ReturnStatementFacts();
    KeepMarkerFree(ReturnStatement, returnType);
  }

  lemma TypedInvocationKept(receiver: string, returnType: string, rep: string)
    requires '_' !in receiver && 'd' !in receiver && ';' !in receiver && MarkerFree(returnType)
    ensures var line := Assigned(returnType, Call(receiver, ParametersPlaceholder));
            Replace(line, DefaultReturnTypePlaceholder, rep) == line
  {
    TypedInvocationNoDefault(receiver, returnType);
    ReplaceAbsent(Assigned(returnType, Call(receiver, ParametersPlaceholder)), DefaultReturnTypePlaceholder, rep);
  }

  lemma StageDefault(returnType: string, parameters: string)
    requires MarkerFree(returnType) && MarkerFree(parameters)
    ensures Returning(returnType, parameters).Replaced(DefaultReturnTypePlaceholder, DefaultValue(returnType))
              == Returning(returnType, parameters).(defaultReturn := ReturnOf(DefaultValue(returnType)))
  {
    TemplateWordsFit();
    var rep := DefaultValue(returnType);
    var h := Returning(returnType, parameters);
    var r := h.Replaced(DefaultReturnTypePlaceholder, rep);
    assert r.instanceHeader == h.instanceHeader && r.staticHeader == h.staticHeader by {
      HeadersMarkerFree(returnType, parameters);
      KeepMarkerFree(h.instanceHeader, rep);
      KeepMarkerFree(h.staticHeader, rep);
    }
    assert r.defaultReturn == ReturnOf(rep) by {
      DefaultReturnFilled(rep);
    }
    assert r.instanceCall == h.instanceCall && r.staticCall == h.staticCall by {
      TypedInvocationKept("this", returnType, rep);
      TypedInvocationKept("null", returnType, rep);
    }
    assert r.instanceReturn == h.instanceReturn && r.staticReturn == h.staticReturn by {
      ReturnStatementFacts();
      KeepMarkerFree(ReturnStatement, rep);
    }
  }

  lemma StageArguments(returnType: string, parameters: string, arguments: string)
    requires MarkerFree(returnType) && MarkerFree(parameters)
    ensures Returning(returnType, parameters).(defaultReturn := ReturnOf(DefaultValue(returnType)))
              .Replaced(ParametersPlaceholder, arguments)
              == Returning(returnType, parameters).(defaultReturn := ReturnOf(DefaultValue(returnType)),
                                                   instanceCall := Assigned(returnType, Call("this", arguments)),
                                                   staticCall := Assigned(returnType, Call("null", arguments)))
  {
    TemplateWordsFit();
    HeadersMarkerFree(returnType, parameters);
    KeepMarkerFree(Signature("private", returnType, "MyInstanceHook", parameters), arguments);
    KeepMarkerFree(Signature("private static", returnType, "MyStaticHook", parameters), arguments);
    DefaultValueMarkerFree(returnType);
    ReturnOfMarkerFree(DefaultValue(returnType));
    KeepMarkerFree(ReturnOf(DefaultValue(returnType)), arguments);
    TypedCallArguments("this", returnType, arguments);
    TypedCallArguments("null", returnType, arguments);
    ReturnStatementFacts();
    KeepMarkerFree(ReturnStatement, arguments);
  }

  // The source the builders produce.

  /** `CreateHookFunction`, Hook.cs lines 217-220: parameter list, return type, then arguments. */
  function GeneratedSource(f: TargetFunction): string
  {
    var types := f.parameterTypes;
    UpdateFunctionParams(UpdateReturnType(UpdateParameterTypes(Template(), types), f), |types|)
  }

  /** The expected trampoline: the seven placeholder lines as the routine's signature fills them. */
  function Filled(f: TargetFunction): Holes
  {
    var parameters := JoinWith(Declarations(f.parameterTypes), ", ");
    var arguments := JoinWith(ParameterNames(|f.parameterTypes|), ", ");
    var returnType := ReturnType(f);
    if ReturnsNothing(f) then
      Holes(
        Signature("private", "void", "MyInstanceHook", parameters),
        ReturnOf(""),
        Call("this", arguments),
        "",
        Signature("private static", "void", "MyStaticHook", parameters),
        Call("null", arguments),
        "")
    else
      Holes(
        Signature("private", returnType, "MyInstanceHook", parameters),
        ReturnOf(DefaultValue(returnType)),
        Assigned(returnType, Call("this", arguments)),
        ReturnStatement,
        Signature("private static", returnType, "MyStaticHook", parameters),
        Assigned(returnType, Call("null", arguments)),
        ReturnStatement)
  }

  /** Every type name the builders substitute is plain. */
  ghost predicate PlainSignature(f: TargetFunction)
  {
    && (forall i :: 0 <= i < |f.parameterTypes| ==> PlainName(ParameterTypeName(f.parameterTypes[i])))
    && (ReturnTypeName(f).Some? ==> PlainName(ReturnTypeName(f).value))
  }

  /** A parameter name has no underscore and no `;`. */
  lemma ParameterNamePlain(i: nat)
    ensures '_' !in ParameterName(i) && ';' !in ParameterName(i)
  {
    var digits := Decimal(i);
    assert forall k :: 0 <= k < |digits| ==> digits[k] != '_' && digits[k] != ';';
  }

  /** The parameter list is plain when the type names are. */
  lemma ParametersPlain(types: seq<TypeInfo>)
    requires forall i :: 0 <= i < |types| ==> PlainName(ParameterTypeName(types[i]))
    ensures PlainName(JoinWith(Declarations(types), ", "))
  {
    var ds := Declarations(types);
    forall i | 0 <= i < |ds| ensures Absent(ds[i], Marker) && ';' !in ds[i] {
      ParameterNamePlain(i);
      NoUnderscore(ParameterName(i));
      MarkerFreeJoin(ParameterTypeName(types[i]), ' ', ParameterName(i));
      assert ds[i] == ParameterTypeName(types[i]) + [' '] + ParameterName(i);
    }
    JoinAbsent(ds, Marker);
    JoinLacks(ds, ", ", ';');
  }

  /** The argument list has no placeholder. */
  lemma ArgumentsMarkerFree(n: nat)
    ensures MarkerFree(JoinWith(ParameterNames(n), ", "))
  {
    var ns := ParameterNames(n);
    forall i | 0 <= i < n ensures Absent(ns[i], Marker) {
      ParameterNamePlain(i);
      NoUnderscore(ParameterName(i));
    }
    JoinAbsent(ns, Marker);
  }

  /** The declared return type is plain when the substituted name is. */
  lemma ReturnTypePlain(f: TargetFunction)
    requires PlainSignature(f)
    ensures PlainName(ReturnType(f))
  {
    if ReturnsNothing(f) {
      NoUnderscore("void");
    }
  }

  /** The parameter list goes in first. */
  lemma TypesStage(types: seq<TypeInfo>)
    ensures UpdateParameterTypes(Template(), types) == Lines(Skeleton(Typed(JoinWith(Declarations(types), ", "))))
  {
    var parameters := JoinWith(Declarations(types), ", ");
    PatternsFit();
    ParameterTypesFilled(Template(), types);
    ReplaceSkeleton(TemplateHoles, ParametersTypesPlaceholder, parameters);
    StageParameterTypes(parameters);
  }

  /** The first three replacements for a routine without a result delete the result variable, its default and `return ret;`. */
  lemma StripStage(parameters: string)
    requires PlainName(parameters)
    ensures Replace(Replace(Replace(Lines(Skeleton(Typed(parameters))), ReturnAssignment, ""),
                            DefaultReturnTypePlaceholder, ""), ReturnStatement, "")
              == Lines(Skeleton(Stripped(parameters)))
  {
    PatternsFit();
    var h1 := Stripped(parameters).(defaultReturn := DefaultReturn, instanceReturn := ReturnStatement, staticReturn := ReturnStatement);
    var h2 := Stripped(parameters).(instanceReturn := ReturnStatement, staticReturn := ReturnStatement);
    assert Replace(Lines(Skeleton(Typed(parameters))), ReturnAssignment, "") == Lines(Skeleton(h1)) by {
      ReplaceSkeleton(Typed(parameters), ReturnAssignment, "");
      StageStripAssignment(parameters);
    }
    assert Replace(Lines(Skeleton(h1)), DefaultReturnTypePlaceholder, "") == Lines(Skeleton(h2)) by {
      ReplaceSkeleton(h1, DefaultReturnTypePlaceholder, "");
      StageStripDefault(parameters);
    }
    ReplaceSkeleton(h2, ReturnStatement, "");
    StageStripReturn(parameters);
  }

  /** The last two replacements for a routine without a result declare it `void`. */
  lemma VoidFillStage(parameters: string)
    requires MarkerFree(parameters)
    ensures FillReturnType(Lines(Skeleton(Stripped(parameters))), "void")
              == Lines(Skeleton(Stripped(parameters).(instanceHeader := Signature("private", "void", "MyInstanceHook", parameters),
                                                       staticHeader := Signature("private static", "void", "MyStaticHook", parameters))))
  {
    PatternsFit();
    var h4 := Stripped(parameters).(instanceHeader := Signature("private", "void", "MyInstanceHook", parameters),
                                    staticHeader := Signature("private static", "void", "MyStaticHook", parameters));
    assert Replace(Lines(Skeleton(Stripped(parameters))), ReturnTypePlaceholder, "void") == Lines(Skeleton(h4)) by {
      ReplaceSkeleton(Stripped(parameters), ReturnTypePlaceholder, "void");
      StageVoidType(parameters);
    }
    ReplaceSkeleton(h4, DefaultReturnTypePlaceholder, DefaultValue("void"));
    StageVoidDefault(parameters);
  }

  /** The five replacements `UpdateReturnType` makes for a routine without a result. */
  lemma VoidStage(f: TargetFunction, parameters: string)
    requires ReturnsNothing(f) && PlainName(parameters)
    ensures UpdateReturnType(Lines(Skeleton(Typed(parameters))), f)
              == Lines(Skeleton(Stripped(parameters).(instanceHeader := Signature("private", "void", "MyInstanceHook", parameters),
                                                       staticHeader := Signature("private static", "void", "MyStaticHook", parameters))))
  {
    var code := Lines(Skeleton(Typed(parameters)));
    var stripped := Replace(Replace(Replace(code, ReturnAssignment, ""), DefaultReturnTypePlaceholder, ""), ReturnStatement, "");
    assert UpdateReturnType(code, f) == FillReturnType(stripped, "void");
    StripStage(parameters);
    VoidFillStage(parameters);
  }

  /** The two replacements `UpdateReturnType` makes for a routine with a result. */
  lemma ResultStage(f: TargetFunction, parameters: string)
    requires !ReturnsNothing(f) && MarkerFree(ReturnType(f)) && MarkerFree(parameters)
    ensures UpdateReturnType(Lines(Skeleton(Typed(parameters))), f)
              == Lines(Skeleton(Returning(ReturnType(f), parameters)
                                  .(defaultReturn := ReturnOf(DefaultValue(ReturnType(f))))))
  {
    PatternsFit();
    var returnType := ReturnType(f);
    ReplaceSkeleton(Typed(parameters), ReturnTypePlaceholder, returnType);
    StageReturnType(returnType, parameters);
    ReplaceSkeleton(Returning(returnType, parameters), DefaultReturnTypePlaceholder, DefaultValue(returnType));
    StageDefault(returnType, parameters);
  }

  /**
   * The trampoline of a routine without a result: `void` headers, an empty
   * `return ;` in the replacer branch, the bare invocations, no `return ret;`.
   */
  lemma VoidSourceFilled(f: TargetFunction)
    requires PlainSignature(f) && ReturnsNothing(f)
    ensures GeneratedSource(f) == Lines(Skeleton(Filled(f)))
  {
    var types := f.parameterTypes;
    var parameters := JoinWith(Declarations(types), ", ");
    var arguments := JoinWith(ParameterNames(|types|), ", ");
    ParametersPlain(types);
    PatternsFit();
    TypesStage(types);
    VoidStage(f, parameters);
    var h := Stripped(parameters).(instanceHeader := Signature("private", "void", "MyInstanceHook", parameters),
                                   staticHeader := Signature("private static", "void", "MyStaticHook", parameters));
    FunctionParamsFilled(Lines(Skeleton(h)), |types|);
    ReplaceSkeleton(h, ParametersPlaceholder, arguments);
    StageVoidArguments(parameters, arguments);
  }

  /**
   * The trampoline of a routine with a result: headers and casts name the
   * return type, the replacer branch returns its default value, and both
   * routines end with `return ret;`.
   */
  lemma ResultSourceFilled(f: TargetFunction)
    requires PlainSignature(f) && !ReturnsNothing(f)
    ensures GeneratedSource(f) == Lines(Skeleton(Filled(f)))
  {
    var types := f.parameterTypes;
    var parameters := JoinWith(Declarations(types), ", ");
    var arguments := JoinWith(ParameterNames(|types|), ", ");
    var returnType := ReturnType(f);
    ParametersPlain(types);
    ReturnTypePlain(f);
    PatternsFit();
    TypesStage(types);
    ResultStage(f, parameters);
    var h := Returning(returnType, parameters).(defaultReturn := ReturnOf(DefaultValue(returnType)));
    FunctionParamsFilled(Lines(Skeleton(h)), |types|);
    ReplaceSkeleton(h, ParametersPlaceholder, arguments);
    StageArguments(returnType, parameters, arguments);
  }

  /**
   * The three builders, in the order `CreateHookFunction` calls them, turn the
   * template into the trampoline of `f`: its parameter declarations, its
   * return type and its arguments stand where the placeholders stood and the
   * fixed lines are unchanged.
   */
  lemma GeneratedSourceFilled(f: TargetFunction)
    requires PlainSignature(f)
    ensures GeneratedSource(f) == Lines(Skeleton(Filled(f)))
  {
    if ReturnsNothing(f) {
      VoidSourceFilled(f);
    } else {
      ResultSourceFilled(f);
    }
  }

  /** Every line of a filled trampoline: all seven lines free of the marker. */
  ghost predicate HolesMarkerFree(h: Holes)
  {
    && MarkerFree(h.instanceHeader) && MarkerFree(h.defaultReturn) && MarkerFree(h.instanceCall)
    && MarkerFree(h.instanceReturn) && MarkerFree(h.staticHeader) && MarkerFree(h.staticCall)
    && MarkerFree(h.staticReturn)
  }

  /** Lines all free of the marker. */
  ghost predicate LinesMarkerFree(ls: seq<string>)
  {
    forall i :: 0 <= i < |ls| ==> MarkerFree(ls[i])
  }

  lemma BlockMarkerFree(ls: seq<string>)
    requires AllPlain(ls)
    ensures LinesMarkerFree(ls)
  {
    forall i | 0 <= i < |ls| ensures MarkerFree(ls[i]) {
      NoUnderscore(ls[i]);
    }
  }

  lemma LinesMarkerFreeJoin(a: seq<string>, b: seq<string>)
    requires LinesMarkerFree(a) && LinesMarkerFree(b)
    ensures LinesMarkerFree(a + b)
  {
    forall i | 0 <= i < |a + b| ensures MarkerFree((a + b)[i]) {
      if i >= |a| {
        assert (a + b)[i] == b[i - |a|];
      }
    }
  }

  /** The fixed lines of the template, block by block, are free of the marker. */
  lemma FixedLinesMarkerFree()
    ensures LinesMarkerFree(Opening) && LinesMarkerFree(InstanceGuard) && LinesMarkerFree(InstanceBefore)
    ensures LinesMarkerFree(InstanceAfter) && LinesMarkerFree(Between) && LinesMarkerFree(StaticBefore)
    ensures LinesMarkerFree(StaticAfter) && LinesMarkerFree(Closing)
  {
    FixedLinesPlain();
    BlockMarkerFree(Opening);
    BlockMarkerFree(InstanceGuard);
    BlockMarkerFree(InstanceBefore);
    BlockMarkerFree(InstanceAfter);
    BlockMarkerFree(Between);
    BlockMarkerFree(StaticBefore);
    BlockMarkerFree(StaticAfter);
    BlockMarkerFree(Closing);
  }

  /** A skeleton whose seven lines are free of the marker is free of it as a whole. */
  lemma SkeletonMarkerFree(h: Holes)
    requires HolesMarkerFree(h)
    ensures MarkerFree(Lines(Skeleton(h)))
  {
    FixedLinesMarkerFree();
    var s := Opening;
    LinesMarkerFreeJoin(s, [h.instanceHeader]);
    s := s + [h.instanceHeader];
    LinesMarkerFreeJoin(s, InstanceGuard);
    s := s + InstanceGuard;
    LinesMarkerFreeJoin(s, [h.defaultReturn]);
    s := s + [h.defaultReturn];
    LinesMarkerFreeJoin(s, InstanceBefore);
    s := s + InstanceBefore;
    LinesMarkerFreeJoin(s, [h.instanceCall]);
    s := s + [h.instanceCall];
    LinesMarkerFreeJoin(s, InstanceAfter);
    s := s + InstanceAfter;
    LinesMarkerFreeJoin(s, [h.instanceReturn]);
    s := s + [h.instanceReturn];
    LinesMarkerFreeJoin(s, Between);
    s := s + Between;
    LinesMarkerFreeJoin(s, [h.staticHeader]);
    s := s + [h.staticHeader];
    LinesMarkerFreeJoin(s, StaticBefore);
    s := s + StaticBefore;
    LinesMarkerFreeJoin(s, [h.staticCall]);
    s := s + [h.staticCall];
    LinesMarkerFreeJoin(s, StaticAfter);
    s := s + StaticAfter;
    LinesMarkerFreeJoin(s, [h.staticReturn]);
    s := s + [h.staticReturn];
    LinesMarkerFreeJoin(s, Closing);
    s := s + Closing;
    AbsentLines(s, Marker);
  }

  /** An invocation with a marker-free argument list. */
  lemma CallMarkerFree(receiver: string, arguments: string)
    requires '_' !in receiver && MarkerFree(arguments)
    ensures MarkerFree(Call(receiver, arguments))
  {
    NoUnderscore(CallHead(receiver));
    NoUnderscore(");");
    MarkerFreeJoin(arguments, '}', ");");
    MarkerFreeJoin(CallHead(receiver), '{', arguments + ['}'] + ");");
    assert Call(receiver, arguments) == CallHead(receiver) + ['{'] + (arguments + ['}'] + ");");
  }

  lemma TypedCallMarkerFree(receiver: string, returnType: string, arguments: string)
    requires '_' !in receiver && MarkerFree(returnType) && MarkerFree(arguments)
    ensures MarkerFree(Assigned(returnType, Call(receiver, arguments)))
  {
    TypedAssignmentMarkerFree(returnType);
    CallMarkerFree(receiver, arguments);
    MarkerFreeJoin("var ret = (" + returnType, ')', Call(receiver, arguments));
    AssignedShape(returnType, Call(receiver, arguments));
  }

  lemma FilledMarkerFree(f: TargetFunction)
    requires PlainSignature(f)
    ensures HolesMarkerFree(Filled(f))
  {
    var types := f.parameterTypes;
    var parameters := JoinWith(Declarations(types), ", ");
    var arguments := JoinWith(ParameterNames(|types|), ", ");
    ParametersPlain(types);
    ArgumentsMarkerFree(|types|);
    ReturnTypePlain(f);
    HeadersMarkerFree(ReturnType(f), parameters);
    NoUnderscore("");
    if ReturnsNothing(f) {
      ReturnOfMarkerFree("");
      CallMarkerFree("this", arguments);
      CallMarkerFree("null", arguments);
    } else {
      DefaultValueMarkerFree(ReturnType(f));
      ReturnOfMarkerFree(DefaultValue(ReturnType(f)));
      TypedCallMarkerFree("this", ReturnType(f), arguments);
      TypedCallMarkerFree("null", ReturnType(f), arguments);
      ReturnStatementFacts();
    }
  }

  /**
   * The trampoline handed to the compiler holds no placeholder: none of the
   * four `replace_me_with_` markers survives the three builders.
   */
  lemma NoPlaceholderLeft(f: TargetFunction)
    requires PlainSignature(f)
    ensures Absent(GeneratedSource(f), ParametersTypesPlaceholder) && Absent(GeneratedSource(f), ParametersPlaceholder)
    ensures Absent(GeneratedSource(f), ReturnTypePlaceholder) && Absent(GeneratedSource(f), DefaultReturnTypePlaceholder)
  {
    GeneratedSourceFilled(f);
    FilledMarkerFree(f);
    SkeletonMarkerFree(Filled(f));
    MarkerFreeAbsent(GeneratedSource(f));
  }
}
