# ManagedHook, modelled in Dafny

ManagedHook hooks a compiled .NET method by overwriting the first 15 bytes
of its machine code with a redirect: `MOV RBX, <target>` (48 BB imm64)
followed by `JMP rel32` (E9 cd), as the Intel 64 and IA-32 Architectures
Software Developer's Manual, Volume 2, defines them (JMP in chapter 3, MOV
in chapter 4). The jump goes to a trampoline that is compiled at run time
from a C# template. The trampoline reads RBX to find its hook in the
registry. Then it either calls a replacer, or calls the handler's `Before`,
unhooks the target, runs the original, hooks it again, and calls `After`.

The project models five parts of that engine:

- `bytes.dfy` (`Bytes`): bytes, 64-bit addresses, the C# `(int)` cast as
  truncation to 32 bits, and little-endian stores.
- `prologue.dfy` (`Prologue`): the 15-byte redirect, the displacement
  computed with 32-bit wrap-around, and memory splices. `WritePatch` and
  `StoreLittleEndian` write into an `array<byte>` one byte at a time.
- `hook.dfy` (`Hooks`): the `Hook` class. `UpdateOriginalFunction` and
  `UnHook` are loops over the memory array. The two binding setters update
  fields.
- `text.dfy`, `hooksource.dfy` and `trampoline.dfy` (`Text`, `HookSource`,
  `TrampolineSource`): `String.Replace` and the three source builders, over
  the trampoline template. The fill theorem `GeneratedSourceFilled` states
  the exact text the builders produce, in the order the source calls them.
- `hookmanager.dfy` (`Manager`): the `HookManager` registry class, holding
  the active map `hooks`, the cache `cacheHooks` and the code memory, and
  the inlining predicate. Dispatch of a call through a patched entry is
  modelled as the registry methods `Call` and `RunPatchedEntry`.

The central invariant is `Manager.Invariant`, which is part of
`HookManager.Valid`. It says that every cached hook's 15 bytes hold the
redirect while the hook is active and its saved snapshot while it is not.
It also says that active hooks are cached hooks, bound to the same object.
Every registry operation keeps `Valid`.

Three facts about the code shape the model:

- A re-hook copies the 15 entry bytes into the snapshot again
  (`ManagedHook/HookManager.cs:99` calls `UpdateOriginalFunction`). An
  inactive address holds its snapshot, so the copy equals the old
  snapshot (`InvariantAfterRepatch`).
- `CanBeInlined` never consults `NoInlining` or virtual dispatch: after
  the size test, both branches return `false`
  (`ManagedHook/HookManager.cs:184-189`).
- Each `Hook` compiles its own trampoline in its constructor, so
  targets with the same signature do not share one.

## Model

| member | source | states |
|---|---|---|
| Bytes.FromLittleEndianOfLittleEndian | ManagedHook/Hook.cs:367 | A value stored as 8 (or 4) little-endian bytes reads back as the same value. |
| Bytes.LittleEndianOfFromLittleEndian | ManagedHook/Hook.cs:367 | Storing what was loaded writes the same bytes, so the byte encoding is a bijection. |
| Bytes.Int32 | ManagedHook/Hook.cs:373 | The unchecked `(int)` cast gives a signed 32-bit value congruent to its operand modulo 2^32. |
| Bytes.Signed32OfUint32Bits | ManagedHook/Hook.cs:375 | The four bytes `*(int*)p = x` stores read back, as a signed 32-bit value, as `x`. |
| Prologue.Rel32Congruent | ManagedHook/Hook.cs:373 | The displacement equals `trampoline - (target + 15)` modulo 2^32. |
| Prologue.Rel32Exact | ManagedHook/Hook.cs:369-375 | When the distance fits in a signed 32-bit value, `target + 15 + rel32` is the trampoline address. |
| Prologue.PatchLayout | ManagedHook/Hook.cs:362-375 | The redirect is `48 BB`, the 8 little-endian bytes of the target, `E9`, then the 4 little-endian bytes of rel32, at offsets 0, 2, 10 and 11. |
| Prologue.PatchLoadsTarget | ManagedHook/Hook.cs:362-367 | The MOV immediate decodes to the target's own address, which is the key the trampoline looks up. |
| Prologue.PatchJumpsBy | ManagedHook/Hook.cs:371-375 | The JMP continues at `target + 15 + rel32`. |
| Prologue.PatchReaches | ManagedHook/Hook.cs:369-375 | The redirect's jump lands on the trampoline exactly when the trampoline lies within a signed 32-bit displacement of `target + 15`. |
| Prologue.PatchDecodes | ManagedHook/Hook.cs:362-375 | Running the redirect loads the target into RBX. It jumps to an address congruent to the trampoline, and exactly to it when the distance fits. |
| Prologue.Splice | ManagedHook/Hook.cs:362-375 | A write of `bytes` at `at` places them there and leaves every byte outside `[at, at+|bytes|)` as it was. |
| Prologue.SpliceFrame | ManagedHook/Hook.cs:362-375 | Writing one 15-byte region leaves every disjoint region unchanged. |
| Prologue.SpliceRestores | ManagedHook/Hook.cs:379-386 | Writing back the 15 bytes saved before a patch restores the whole memory exactly. |
| Prologue.RegionOfSplice | ManagedHook/Hook.cs:354-357 | A region just written holds what was written, so the next snapshot of it copies those bytes. |
| Prologue.SpliceSame | ManagedHook/Hook.cs:379-386 | Writing a region's own bytes back changes nothing. |
| Prologue.SpliceTwice | ManagedHook/Hook.cs:362-375 | The last write to a region is what the region holds. |
| Prologue.SpliceAdjacent | ManagedHook/Hook.cs:362-375 | Two writes to adjacent runs equal one write of their concatenation. |
| Prologue.StoreLittleEndian | ManagedHook/Hook.cs:367 | The loop stores the little-endian bytes of the value at `[at, at+width)` and changes nothing else. |
| Prologue.StoreByte | ManagedHook/Hook.cs:362 | A single byte store changes that byte only. |
| Prologue.WritePatch | ManagedHook/Hook.cs:362-375 | The five stores, in the source's order, leave memory equal to the old memory with the redirect spliced in at `p`. |
| Hooks.Hook.constructor | ManagedHook/Hook.cs:44-74 | The hook binds the replacer if one is given and the handler otherwise, never both. It snapshots the target and patches it, or changes nothing for a null pointer. |
| Hooks.Hook.SetHookHandler | ManagedHook/Hook.cs:122-137 | The handler changes only to a non-null value. A null value keeps the old handler. The replacer is untouched. |
| Hooks.Hook.SetFunctionReplacer | ManagedHook/Hook.cs:146-157 | The replacer changes only to a non-null value. A null value keeps the old replacer. The handler is untouched. |
| Hooks.Hook.UpdateOriginalFunction | ManagedHook/Hook.cs:345-377 | For a non-zero target it copies `[p, p+15)` into the snapshot, then writes the redirect there and nothing else. For a zero pointer neither the snapshot nor memory changes. |
| Hooks.Hook.UnHook | ManagedHook/Hook.cs:379-386 | The loop writes the 15 snapshot bytes back at the target and changes no other byte. |
| Text.ReplaceAbsent | ManagedHook/Hook.cs:305 | `String.Replace` of a pattern that does not occur returns the text unchanged. |
| Text.ReplaceLead | ManagedHook/Hook.cs:305 | An occurrence at the start is replaced, and scanning resumes after it, never inside the replacement. |
| Text.DecimalValue | ManagedHook/Hook.cs:298 | The decimal spelling of a counter reads back as that counter, so parameter names are distinct. |
| HookSource.Dotted | ManagedHook/Hook.cs:289 | It is `String.Replace(name, "+", ".")`: it keeps the length, turns every `+` into `.`, keeps every other character, and leaves no `+`. |
| HookSource.NamesAccumulatedJoined | ManagedHook/Hook.cs:262-267 | After n iterations the loop's string is `p0, …, p{n-1}` joined by `", "`, followed by one trailing `", "` when n > 0. |
| HookSource.TypesAccumulatedJoined | ManagedHook/Hook.cs:285-300 | After k iterations the loop's string is the first k declarations joined by `", "`, followed by one trailing `", "` when k > 0. |
| HookSource.FunctionParamsFilled | ManagedHook/Hook.cs:258-279 | `UpdateFunctionParams` replaces the argument placeholder by exactly the n names joined by `", "`. For n = 0 that is the empty string. Otherwise it ends in a digit, not a separator. |
| HookSource.ParameterTypesFilled | ManagedHook/Hook.cs:281-313 | `UpdateParameterTypes` replaces the parameter-list placeholder by the declarations joined by `", "`. The i-th declaration is `<T_i> p<i>`. |
| HookSource.ParameterTypeNameSpelled | ManagedHook/Hook.cs:287-294 | A public type is written as `String.Replace(fullName, "+", ".")`, its full name with every `+` turned into `.`. Any other type is written `object`. |
| HookSource.ArgumentsFirstCorrupts | ManagedHook/Hook.cs:217-220 | Had the argument builder run first, it would turn the parameter-list placeholder into the arguments followed by `_types`. This is why types are substituted first. |
| HookSource.ReturnTypeSpelled | ManagedHook/Hook.cs:317-333 | A constructor or a `System.Void` method declares `void`. A non-visible reference type declares `object`. Any other type declares its dotted full name. |
| TrampolineSource.ReplaceSkeleton | ManagedHook/Hook.cs:166-211 | A placeholder replacement over the whole template changes only its seven placeholder lines. The fixed lines contain no placeholder and no `return ret;`. |
| TrampolineSource.HeaderTypes | ManagedHook/Hook.cs:174 | In a routine header, the parameter-list replacement changes only what sits between the parentheses. |
| TrampolineSource.HeaderReturnType | ManagedHook/Hook.cs:335 | In a routine header, the return-type replacement changes only the declared type. The parameter list is kept. |
| TrampolineSource.InvocationUnassigned | ManagedHook/Hook.cs:329 | Deleting `var ret = (…)` from an invocation leaves exactly the bare `hook.Function.Invoke(…)` call. |
| TrampolineSource.CallArguments | ManagedHook/Hook.cs:272 | The argument replacement puts the list between the braces of `new object[] {…}` and changes nothing else in the call. |
| TrampolineSource.TypedCallArguments | ManagedHook/Hook.cs:272 | The same holds for an assigned, cast invocation. The cast type is kept. |
| TrampolineSource.TypesStage | ManagedHook/Hook.cs:217 | After `UpdateParameterTypes` both headers carry the declarations, and every other line is as in the template. |
| TrampolineSource.StageParameterTypes | ManagedHook/Hook.cs:302-310 | Line by line, the parameter-list replacement reaches only the two headers. |
| TrampolineSource.StageStripAssignment | ManagedHook/Hook.cs:329 | For a routine without a result, deleting `var ret = (…)` leaves the bare invocations and touches nothing else. |
| TrampolineSource.StageStripDefault | ManagedHook/Hook.cs:330 | Deleting the default-value placeholder leaves `return ;` in the replacer branch. |
| TrampolineSource.StageStripReturn | ManagedHook/Hook.cs:331 | Deleting `return ret;` empties the two final lines and nothing else. |
| TrampolineSource.StripStage | ManagedHook/Hook.cs:327-331 | The three deletions together give the stripped routine. |
| TrampolineSource.StageVoidType | ManagedHook/Hook.cs:332-335 | The stripped routine's headers declare `void`. |
| TrampolineSource.StageVoidDefault | ManagedHook/Hook.cs:336 | For a void routine the default-value replacement finds nothing left to replace. |
| TrampolineSource.VoidFillStage | ManagedHook/Hook.cs:332-336 | The last two replacements of a routine without a result only write `void` into the headers. |
| TrampolineSource.VoidStage | ManagedHook/Hook.cs:327-338 | `UpdateReturnType` of a routine without a result yields `void` headers, bare invocations and no `return ret;`. |
| TrampolineSource.StageVoidArguments | ManagedHook/Hook.cs:269-277 | In a void routine the argument list goes between the braces of both invocations. |
| TrampolineSource.ReturnTypeNotInDefault | ManagedHook/Hook.cs:335-336 | `replace_me_with_return_type` does not occur inside `replace_me_with_default_return_type`, so the type replacement cannot corrupt the default placeholder. |
| TrampolineSource.StageReturnType | ManagedHook/Hook.cs:335 | For a routine with a result, the type goes into both headers and both casts, and the default placeholder survives. |
| TrampolineSource.DefaultReturnFilled | ManagedHook/Hook.cs:336 | The default placeholder becomes `default(<type>)`, between `return ` and `;`. |
| TrampolineSource.StageDefault | ManagedHook/Hook.cs:336 | The default-value replacement changes only the replacer branch's return line. |
| TrampolineSource.ResultStage | ManagedHook/Hook.cs:315-338 | `UpdateReturnType` of a routine with a result gives typed headers, casts to the type, `return default(<type>);` and the kept `return ret;`. |
| TrampolineSource.StageArguments | ManagedHook/Hook.cs:272 | In a routine with a result the argument list goes between the braces of both invocations. |
| TrampolineSource.VoidSourceFilled | ManagedHook/Hook.cs:217-220 | The three builders, in order, produce the void trampoline exactly. |
| TrampolineSource.ResultSourceFilled | ManagedHook/Hook.cs:217-220 | The three builders, in order, produce the trampoline with a result exactly. |
| TrampolineSource.GeneratedSourceFilled | ManagedHook/Hook.cs:166-220 | Types, then return type, then arguments, turn the template into the trampoline for the signature: declarations, return type, default value and arguments where the placeholders were, and fixed lines unchanged. |
| TrampolineSource.NoPlaceholderLeft | ManagedHook/Hook.cs:217-220 | None of the four placeholders survives the three builders. |
| Manager.Count | ManagedHook.Tests/HookTests.cs:680-703 | A handler's call counter is at most the trace length, and zero exactly when the event never occurs. |
| Manager.CountAppend | ManagedHook.Tests/HookTests.cs:693-703 | Counts over a trace extended by more calls add up, as the handler's counters do. |
| Manager.CountRepeatOnce | ManagedHook.Tests/HookTests.cs:693-703 | An event that occurs once per call occurs exactly k times over k calls. |
| Manager.RepeatedCallsCounted | ManagedHook.Tests/HookTests.cs:693-703 | Over n handled calls, `Before`, `After` and the original body each run exactly n more times. |
| Manager.JitOptimizerOnFirstDebuggable | ManagedHook/HookManager.cs:192-203 | The optimizer counts as on exactly when a first `DebuggableAttribute` exists and does not disable it. Later ones are ignored. |
| Manager.IsJitOptimizerEnabled | ManagedHook/HookManager.cs:192-203 | The early-return scan returns the negated flag of the first `DebuggableAttribute`, or false without one. |
| Manager.CanBeInlined | ManagedHook/HookManager.cs:170-190 | True exactly when the optimizer is on and the IL size is at most 32 bytes. |
| Manager.InliningIgnoresFlags | ManagedHook/HookManager.cs:184-189 | The `NoInlining` test cannot change the verdict: any implementation flags give the same answer. |
| Manager.ConsistentAfterPatch | ManagedHook/HookManager.cs:91-102 | Patching an address whose region is clear of all others makes it active and keeps every other region consistent. |
| Manager.ConsistentAfterRestore | ManagedHook/HookManager.cs:124-130 | Writing back an active address's snapshot makes it inactive and keeps every other region consistent. |
| Manager.InvariantAfterCreate | ManagedHook/HookManager.cs:91-102 | Creating, caching and activating a hook for a new address keeps the registry invariant. |
| Manager.InvariantAfterRepatch | ManagedHook/HookManager.cs:96-102 | An inactive cached address holds its snapshot, so re-patching re-snapshots the same bytes and keeps the invariant. |
| Manager.InvariantAfterRestore | ManagedHook/HookManager.cs:124-130 | Deactivating an active hook by writing its snapshot back keeps the invariant. |
| Manager.HookManager.constructor | ManagedHook/HookManager.cs:24-31 | The new registry has empty maps and satisfies the invariant. |
| Manager.HookManager.GetHook | ManagedHook/HookManager.cs:37-46 | It returns the hook in the active map, or null. The cache is not consulted. |
| Manager.HookManager.Rejection | ManagedHook/HookManager.cs:139-160 | Validation passes exactly for a non-null target in a 64-bit process, not possibly inlined, and not active. Otherwise the first failing check's exception is raised, in the source's order. |
| Manager.HookManager.ValidateHookedFunction | ManagedHook/HookManager.cs:139-160 | The checks return exactly `Rejection`. |
| Manager.HookManager.Install | ManagedHook/HookManager.cs:90-104 | It reuses the cached hook, or creates one when the trampoline compiles. In both cases the hook is activated, memory holds its redirect, and the invariant holds. |
| Manager.HookManager.InstallNew | ManagedHook/HookManager.cs:91-95 | A new hook is created, patched in, cached and activated under its address. |
| Manager.HookManager.Register | ManagedHook/HookManager.cs:94-102 | The new hook is added to the cache and to the active map, bound to the same object, and the invariant is kept. |
| Manager.HookManager.Reinstall | ManagedHook/HookManager.cs:96-102 | The cached hook object is reused: rebound, re-patched and activated. No new hook and no new trampoline. |
| Manager.HookManager.Rebind | ManagedHook/HookManager.cs:96-99 | `HookFunction` sets only the handler and `ReplaceFunction` only the replacer. A null value changes nothing. |
| Manager.HookManager.Repatch | ManagedHook/HookManager.cs:99-102 | The redirect is written again, the address becomes active, and the snapshot equals what was saved before. |
| Manager.HookManager.HookFunction | ManagedHook/HookManager.cs:86-105 | A rejected target raises the first failing check and changes nothing. Otherwise the address is active in both maps under one hook, and memory holds its redirect. |
| Manager.HookManager.ReplaceFunction | ManagedHook/HookManager.cs:54-78 | A null replacer is rejected before validation. Otherwise it behaves as `HookFunction` but binds the replacer. |
| Manager.HookManager.UnHookFunctionAt | ManagedHook/HookManager.cs:121-133 | It returns true exactly when the address is active. Then it restores the snapshot and removes the address from the active map only. Otherwise nothing changes. |
| Manager.HookManager.Restore | ManagedHook/HookManager.cs:124-130 | Writes the active hook's snapshot back and removes the address from the active map. |
| Manager.HookManager.UnHookFunction | ManagedHook/HookManager.cs:111-115 | Unhooking by hook is unhooking at the hook's address. |
| Manager.HookManager.Call | ManagedHook/Hook.cs:174-209 | At an inactive address the original runs and its result or exception is passed on. At an active one the patched entry runs, with the outcome `RunPatchedEntry` states. The bindings and snapshots of cached hooks never change. |
| Manager.HookManager.RunPatchedEntry | ManagedHook/Hook.cs:174-209 | A trampoline out of `JMP rel32` reach gives a `Strayed` outcome at the address the jump reaches, and nothing changes. Otherwise the trampoline looks up the address loaded into RBX and dispatches. The registry and memory end as they began, except after an original body that throws: then the target stays unhooked with its snapshot written back. |
| Manager.HookManager.Trampoline | ManagedHook/Hook.cs:174-192 | An instance hook with a replacer calls `NewFunction` and returns the default value. Otherwise it runs Before, the original, then After, and returns the original's result. A missing handler throws. An original that throws skips the re-hook and After, and leaves the target unhooked. The static routine ignores the replacer. |
| Manager.HookManager.CallThrough | ManagedHook/Hook.cs:185-188 | Unhook, run the original, re-hook: the active map, the bindings, the snapshot and every memory byte end as they began. If the original throws, the re-hook is skipped: the address leaves the active map and its snapshot is written back. |
| Manager.HookManager.CallHandled | ManagedHook/Hook.cs:183-190 | A call at an active address bound to a handler (an instance target with no replacer) runs `Before`, the original and `After` once each. The registry, the binding and memory end as they began. |
| Manager.HookManager.CallRepeatedly | ManagedHook/Hook.cs:183-190 | After n such calls, the handler's `Before` and `After` counts and the original's count each grow by exactly n, and the registry and memory end as they began. |
| Manager.HookManager.Rehook | ManagedHook/Hook.cs:188 | `HookFunction(hook.Function, hook.HookHandler)` on the inactive cached hook passes validation and reuses the hook with its binding. |
| Manager.HookManager.HookFresh | ManagedHook/HookManager.cs:86-105 | Hooking a never-hooked function creates a fresh hook bound to the handler, active and cached at its address. |
| Manager.HookManager.HookCached | ManagedHook/HookManager.cs:91-100 | Re-hooking an unhooked function returns the same cached hook object, bound to the new handler. |
| Manager.HookManager.HookAndCall | ManagedHook.Tests/HookTests.cs:310-322 | After hooking, a call returns the original's result and the handler's Before and After run once each, around the original. |
| Manager.HookManager.HookCallRelease | ManagedHook.Tests/HookTests.cs:310-328 | After hook, call and unhook, memory is as before hooking and only the cache remembers the hook. |
| Manager.HookManager.RehookAndCall | ManagedHook.Tests/HookTests.cs:381-397 | A re-hook with a second handler and a call run that handler once around the original. |
| Manager.HookManager.HookCallUnhook | ManagedHook.Tests/HookTests.cs:310-335 | Hook, call, unhook, call: both calls return the original's result, the handler runs once, and the active map and memory end as they began. |
| Manager.HookManager.HookTwice | ManagedHook.Tests/HookTests.cs:365-399 | The second hook is the same object with the second handler, and each handler runs around exactly one call. |

## Left out

- `VirtualProtect` and page protection are not modelled: memory is
  writable. The source makes only the first 5 bytes writable before
  writing 15, and `UnHook` never changes protection. The model neither
  repeats nor repairs either behaviour.
- Run-time compilation of the trampoline (`CSharpCodeProvider`, the
  referenced assemblies, compile errors beyond success or failure) is not
  modelled. The compiled entry point is a parameter, `compiled`, consulted
  only when a hook is created.
- The fresh class name: `Program_<GUID>` is not modelled. The template
  keeps `MyProgram`, because GUIDs are nondeterministic.
- The template's indentation and line endings: lines are kept without
  leading spaces and joined by a single line feed.
- The `GetRBX` rewrite of its own entry (MOV RAX, RBX; RET) is not
  modelled. The trampoline receives the value the redirect loaded into RBX.
- Reflection and the JIT (`GetFunctionPointer`, `PrepareMethod`,
  `CreateDelegate`, `GetMethodBody`, `Invoke`) are replaced by the plain
  fields of `TargetFunction` and by the original body's outcome (a result
  or an exception) as a parameter, `run`.
- The arguments handed to handlers are not modelled. The template passes
  only `this` or `null`, while the handler interface declares more. The
  model records which handler runs, and in what order.
- Concurrency and the lazily created singleton are not modelled: the
  model is sequential.
- `CanBeHooked` and the lambda overloads that the tests call do not exist
  in `ManagedHook/HookManager.cs`, so they are not modelled.
- TrampolineSource.GeneratedSourceFilled: assumes that every type name it
  substitutes contains no `replace_me_with_` and no `;` (`PlainSignature`).
  The source does not check this. A type name carrying a placeholder would
  be rewritten by a later builder.
- TrampolineSource.NoPlaceholderLeft: rests on the same `PlainSignature`
  assumption.
- Manager.HookManager.HookFunction: assumes `Placeable`. The target's 15
  bytes must lie in memory at a nonzero address, and must not overlap
  another hooked target's bytes. The source relies on the runtime for this
  and checks nothing. A zero pointer is therefore not modelled through the
  registry; `Hooks.Hook.UpdateOriginalFunction` models it alone.
- Manager.HookManager.ReplaceFunction: assumes `Placeable`, as
  `HookFunction` does.
- Manager.HookManager.Trampoline: a null handler is modelled as a
  `NullReferenceThrown` outcome with no state change. What the exception
  does afterwards is not modelled.
- Manager.HookManager.RunPatchedEntry: when the trampoline is out of
  `JMP rel32` reach, the outcome only names the address the jump reaches.
  What runs there is not modelled.
- Manager.HookManager.HookAndCall, HookCallRelease, HookCallUnhook,
  HookTwice and RehookAndCall: assume that the compiled trampoline lies
  within `JMP rel32` reach of the target (`Reaches`). The tests rely on the
  runtime placing it there.
- HookSource.ParameterTypeName and HookSource.ReturnTypeName: a type whose
  `FullName` is null, such as a generic type parameter, is not modelled.
  Every type name is a string. The source would throw
  `NullReferenceException` at `ManagedHook/Hook.cs:289` and
  `ManagedHook/Hook.cs:324`.
- Manager.CanBeInlined: a method without a body (abstract or extern), for
  which `GetMethodBody()` is null, is not modelled. The IL size is a plain
  number. The source would throw `NullReferenceException` at
  `ManagedHook/HookManager.cs:178`.
- Exceptions thrown by a handler's `Before` or `After`, or by a
  replacer's `NewFunction`, are not modelled. Handlers only record that
  they ran.
