/**
 * The registry that owns every hook. `hooks` maps each address that is
 * currently redirected to its hook; `cacheHooks` maps every address ever
 * hooked to its one hook object, which is reused when the address is hooked
 * again. With the patcher it keeps the central invariant: the entry bytes of
 * every known hook are the redirect while the hook is active and its saved
 * snapshot while it is not.
 */
module Manager {
  import opened Bytes
  import opened Prologue
  import opened Wrappers
  import opened Reflection
  import opened Hooks

  /** The exceptions the registry throws. */
  datatype HookError =
    | ArgumentNull(paramName: string)     // ArgumentNullException
    | Argument(message: string)           // ArgumentException
    | CompileError                        // the generated trampoline did not compile

  const Only64Bit := "Cannot hook in 32 bit assembly!"
  const PossiblyInlined := "Cannot hook a function that can be possibly be inlined!"
  const HookedTwice := "Cannot hook a function twice."

  /** Largest IL body, in bytes, that the JIT may inline. */
  const InlineIlLimit: nat := 32

  /** What the handlers and the original body do, as seen from outside. */
  datatype Event =
    | BeforeCalled(handler: HandlerId)
    | AfterCalled(handler: HandlerId)
    | NewFunctionCalled(replacer: ReplacerId)
    | OriginalRan(address: Address)

  /** How the original body ends when it runs: with a value, or by throwing. */
  datatype Run = Completes(value: int) | Throws

  /** What a call of a target returns to its caller. */
  datatype CallOutcome =
    | Returned(value: int)          // the original body's result
    | ReturnedDefault               // a replacer ran instead, and the default value is returned
    | NullReferenceThrown           // the trampoline dereferenced a missing handler
    | OriginalThrew                 // the original body threw, and the exception reaches the caller
    | Strayed(destination: int)     // the patched jump did not land on the trampoline

  /** How many times `e` occurs in `trace`. */
  function Count(trace: seq<Event>, e: Event): (n: nat)
    ensures n <= |trace|
    ensures n == 0 <==> e !in trace
  {
    if trace == [] then 0 else (if trace[0] == e then 1 else 0) + Count(trace[1..], e)
  }

  lemma {:induction false} CountAppend(s: seq<Event>, t: seq<Event>, e: Event)
    ensures Count(s + t, e) == Count(s, e) + Count(t, e)
  {
    if s == [] {
      assert s + t == t;
    } else {
      assert (s + t)[1..] == s[1..] + t;
      CountAppend(s[1..], t, e);
    }
  }

  /** Whether the JIT optimizer is on: the first `DebuggableAttribute` decides; without one it is off. */
  ghost predicate JitOptimizerOn(attributes: seq<AssemblyAttribute>)
  {
    if attributes == [] then false
    else if attributes[0].DebuggableAttribute? then !attributes[0].isJitOptimizerDisabled
    else JitOptimizerOn(attributes[1..])
  }

  /** `attributes[i]` is the first `DebuggableAttribute` of the assembly. */
  ghost predicate FirstDebuggable(attributes: seq<AssemblyAttribute>, i: int)
  {
    && 0 <= i < |attributes| && attributes[i].DebuggableAttribute?
    && forall j :: 0 <= j < i ==> !attributes[j].DebuggableAttribute?
  }

  /**
   * Only the first `DebuggableAttribute` matters: the optimizer is on iff it
   * exists and does not disable the optimizer, whatever later ones say.
   */
  lemma {:induction false} JitOptimizerOnFirstDebuggable(attributes: seq<AssemblyAttribute>)
    ensures JitOptimizerOn(attributes) <==>
      exists i :: FirstDebuggable(attributes, i) && !attributes[i].isJitOptimizerDisabled
  {
    if attributes != [] && !attributes[0].DebuggableAttribute? {
      var rest := attributes[1..];
      JitOptimizerOnFirstDebuggable(rest);
      if JitOptimizerOn(attributes) {
        var k :| FirstDebuggable(rest, k) && !rest[k].isJitOptimizerDisabled;
        assert FirstDebuggable(attributes, k + 1);
      }
      if i :| FirstDebuggable(attributes, i) && !attributes[i].isJitOptimizerDisabled {
        assert FirstDebuggable(rest, i - 1);
      }
    } else if attributes != [] {
      if i :| FirstDebuggable(attributes, i) && !attributes[i].isJitOptimizerDisabled {
        assert i == 0;
      }
      if JitOptimizerOn(attributes) {
        assert FirstDebuggable(attributes, 0);
      }
    }
  }

  /** The JIT may have copied the body of `f` into its callers. */
  ghost predicate InlineCandidate(f: TargetFunction)
  {
    JitOptimizerOn(f.assemblyAttributes) && f.ilSize <= InlineIlLimit
  }

  /** Scans the assembly's attributes in order; the first `DebuggableAttribute` decides. */
  method IsJitOptimizerEnabled(attributes: seq<AssemblyAttribute>) returns (enabled: bool)
    ensures enabled == JitOptimizerOn(attributes)
  {
    for i := 0 to |attributes|
      invariant JitOptimizerOn(attributes[i..]) == JitOptimizerOn(attributes)
    {
      assert attributes[i..][1..] == attributes[i + 1..];
      if attributes[i].DebuggableAttribute? {
        return !attributes[i].isJitOptimizerDisabled;
      }
    }
    return false;
  }

  /**
   * Whether `f` may have been inlined: only with the optimizer on and an IL
   * body of at most 32 bytes. The `NoInlining` test comes after the size test
   * and both of its outcomes are `false`, so it never changes the answer.
   */
  method CanBeInlined(f: TargetFunction) returns (inlinable: bool)
    ensures inlinable <==> InlineCandidate(f)
  {
    var isJitOptimizer := IsJitOptimizerEnabled(f.assemblyAttributes);
    if !isJitOptimizer {
      return false;
    }
    var ilSize := f.ilSize;
    if ilSize <= InlineIlLimit {
      return true;
    }
    if f.implementationFlags == NoInlining {
      return false;
    }
    return false;
  }

  /** The implementation flags of a target, `NoInlining` among them, play no part in the inlining verdict. */
  lemma InliningIgnoresFlags(f: TargetFunction, flags: nat)
    ensures InlineCandidate(f) == InlineCandidate(f.(implementationFlags := flags))
  {
  }

  /** Everything the registry knows about one hooked address: its trampoline and the bytes saved from it. */
  datatype Entry = Entry(trampoline: Address, snapshot: seq<byte>)

  /** The 15-byte regions of distinct addresses do not overlap. */
  ghost predicate Separate(addresses: set<Address>)
  {
    forall a, b :: a in addresses && b in addresses && a != b ==> Disjoint(a, b)
  }

  /** A new address clear of every known one keeps the regions separate. */
  lemma SeparateInsert(addresses: set<Address>, a: Address)
    requires Separate(addresses)
    requires forall b :: b in addresses ==> Disjoint(a, b)
    ensures Separate(addresses + {a})
  {
  }

  /** Memory `m` holds the redirect at every active address and the snapshot at every other known one. */
  ghost predicate Consistent(m: seq<byte>, active: set<Address>, entries: map<Address, Entry>)
  {
    forall a :: a in entries ==>
      a + PatchLength <= |m| &&
      Region(m, a) == if a in active then PatchBytes(a, entries[a].trampoline) else entries[a].snapshot
  }

  /** Patching one known address, or a new one clear of all others, keeps memory consistent with it active. */
  lemma ConsistentAfterPatch(m: seq<byte>, active: set<Address>, entries: map<Address, Entry>, a: Address, e: Entry)
    requires Consistent(m, active, entries)
    requires a + PatchLength <= |m|
    requires forall b :: b in entries && b != a ==> Disjoint(a, b)
    ensures Consistent(Splice(m, a, PatchBytes(a, e.trampoline)), active + {a}, entries[a := e])
  {
    var m' := Splice(m, a, PatchBytes(a, e.trampoline));
    forall b | b in entries && b != a
      ensures Region(m', b) == Region(m, b)
    {
      SpliceFrame(m, a, PatchBytes(a, e.trampoline), b);
    }
  }

  /** Writing an address's snapshot back keeps memory consistent with it inactive. */
  lemma ConsistentAfterRestore(m: seq<byte>, active: set<Address>, entries: map<Address, Entry>, a: Address)
    requires Consistent(m, active, entries)
    requires a in entries && |entries[a].snapshot| == PatchLength
    requires forall b :: b in entries && b != a ==> Disjoint(a, b)
    ensures Consistent(Splice(m, a, entries[a].snapshot), active - {a}, entries)
  {
    var m' := Splice(m, a, entries[a].snapshot);
    forall b | b in entries && b != a
      ensures Region(m', b) == Region(m, b)
    {
      SpliceFrame(m, a, entries[a].snapshot, b);
    }
  }

  /** Hook `h` is registered at `a`, and its region lies in `code`. */
  ghost predicate WellFormed(a: Address, h: Hook, code: array<byte>)
  {
    && h.functionPointer == a
    && 0 < a && a + PatchLength <= code.Length
  }

  /** `entries` records, for every cached hook, its trampoline and a 15-byte snapshot. */
  ghost predicate Describes(cache: map<Address, Hook>, entries: map<Address, Entry>)
  {
    && entries.Keys == cache.Keys
    && forall a :: a in cache ==>
         entries[a].trampoline == cache[a].hookFunctionPointer && |entries[a].snapshot| == PatchLength
  }

  /**
   * The registry invariant over plain values: active hooks are cached hooks,
   * every cached hook is well formed and separate from the others, and
   * memory `m` (the contents of `code`) is consistent with which are active.
   */
  ghost predicate Invariant(active: map<Address, Hook>, cache: map<Address, Hook>, entries: map<Address, Entry>,
                            m: seq<byte>, code: array<byte>)
  {
    && active.Keys <= cache.Keys
    && (forall a :: a in active ==> active[a] == cache[a])
    && (forall a :: a in cache ==> WellFormed(a, cache[a], code))
    && Separate(cache.Keys)
    && Describes(cache, entries)
    && Consistent(m, active.Keys, entries)
  }

  /** Creating, caching and activating a hook for a new address keeps the invariant. */
  lemma InvariantAfterCreate(active: map<Address, Hook>, cache: map<Address, Hook>, entries: map<Address, Entry>,
                             m: seq<byte>, code: array<byte>, h: Hook)
    requires Invariant(active, cache, entries, m, code) && |m| == code.Length
    requires WellFormed(h.functionPointer, h, code) && h.functionPointer !in cache
    requires forall b :: b in cache ==> Disjoint(h.functionPointer, b)
    ensures var a := h.functionPointer;
      Invariant(active[a := h], cache[a := h], entries[a := Entry(h.hookFunctionPointer, Region(m, a))],
                Splice(m, a, PatchBytes(a, h.hookFunctionPointer)), code)
  {
    var a := h.functionPointer;
    var active', cache', entries' := active[a := h], cache[a := h], entries[a := Entry(h.hookFunctionPointer, Region(m, a))];
    SeparateInsert(cache.Keys, a);
    assert cache'.Keys == cache.Keys + {a};
    ConsistentAfterPatch(m, active.Keys, entries, a, entries'[a]);
    assert active'.Keys == active.Keys + {a};
    assert forall b :: b in active' ==> active'[b] == cache'[b];
    assert forall b :: b in cache' ==> WellFormed(b, cache'[b], code);
    assert Describes(cache', entries');
  }

  /** Re-activating a cached, inactive hook keeps the invariant; its snapshot is what the address holds. */
  lemma InvariantAfterRepatch(active: map<Address, Hook>, cache: map<Address, Hook>, entries: map<Address, Entry>,
                              m: seq<byte>, code: array<byte>, a: Address)
    requires Invariant(active, cache, entries, m, code)
    requires a in cache && a !in active
    ensures Region(m, a) == entries[a].snapshot
    ensures Invariant(active[a := cache[a]], cache, entries, Splice(m, a, PatchBytes(a, entries[a].trampoline)),
                      code)
  {
    ConsistentAfterPatch(m, active.Keys, entries, a, entries[a]);
    assert entries[a := entries[a]] == entries;
    assert active[a := cache[a]].Keys == active.Keys + {a};
  }

  /** Deactivating an active hook by writing its snapshot back keeps the invariant. */
  lemma InvariantAfterRestore(active: map<Address, Hook>, cache: map<Address, Hook>, entries: map<Address, Entry>,
                              m: seq<byte>, code: array<byte>, a: Address)
    requires Invariant(active, cache, entries, m, code)
    requires a in active
    ensures Invariant(active - {a}, cache, entries, Splice(m, a, entries[a].snapshot), code)
  {
    ConsistentAfterRestore(m, active.Keys, entries, a);
    assert (active - {a}).Keys == active.Keys - {a};
  }

  /** Each hook's buffer holds the snapshot its entry records. */
  ghost predicate Recorded(cache: map<Address, Hook>, entries: map<Address, Entry>)
    reads cache.Values`original
  {
    forall a :: a in cache ==> a in entries && cache[a].original == entries[a].snapshot
  }

  /** Recording a hook together with its snapshot keeps the others recorded. */
  lemma RecordedInsert(cache: map<Address, Hook>, entries: map<Address, Entry>, a: Address, h: Hook, e: Entry)
    requires Recorded(cache, entries) && h.original == e.snapshot
    ensures Recorded(cache[a := h], entries[a := e])
  {
  }

  /** Every hook passed validation: it sits at its target's address and its target cannot have been inlined. */
  ghost predicate Admitted(cache: map<Address, Hook>)
  {
    forall a :: a in cache ==> cache[a].target.address == a && !InlineCandidate(cache[a].target)
  }

  /** Adding a validated hook keeps every hook validated. */
  lemma AdmittedInsert(cache: map<Address, Hook>, a: Address, h: Hook)
    requires Admitted(cache) && h.target.address == a && !InlineCandidate(h.target)
    ensures Admitted(cache[a := h])
  {
  }

  /**
   * After `n` calls that each run the handler around the original body,
   * the handler's `Before` and `After` and the original body have each run
   * exactly `n` more times.
   */
  lemma RepeatedCallsCounted(t: seq<Event>, handler: HandlerId, a: Address, n: nat)
    ensures var r := t + Repeat([BeforeCalled(handler), OriginalRan(a), AfterCalled(handler)], n);
      && Count(r, BeforeCalled(handler)) == Count(t, BeforeCalled(handler)) + n
      && Count(r, AfterCalled(handler)) == Count(t, AfterCalled(handler)) + n
      && Count(r, OriginalRan(a)) == Count(t, OriginalRan(a)) + n
  {
    var events := [BeforeCalled(handler), OriginalRan(a), AfterCalled(handler)];
    CountRepeatOnce(events, n, BeforeCalled(handler));
    CountAppend(t, Repeat(events, n), BeforeCalled(handler));
    CountRepeatOnce(events, n, AfterCalled(handler));
    CountAppend(t, Repeat(events, n), AfterCalled(handler));
    CountRepeatOnce(events, n, OriginalRan(a));
    CountAppend(t, Repeat(events, n), OriginalRan(a));
  }

  // Sequence and map identities, used as steps in the registry's proofs.

  /** Appending two events one at a time appends the two of them. */
  lemma AppendTwo(t: seq<Event>, x: Event, y: Event)
    ensures t + [x] + [y] == t + [x, y]
  {
  }

  /** Appending three events one at a time appends the three of them. */
  lemma AppendThree(t: seq<Event>, x: Event, y: Event, z: Event)
    ensures t + [x] + [y] + [z] == t + [x, y, z]
  {
  }

  /** Appending one more run to `k` repetitions gives `k + 1` repetitions. */
  lemma AppendRepeat(s: seq<Event>, t: seq<Event>, k: nat)
    ensures s + Repeat(t, k) + t == s + Repeat(t, k + 1)
  {
    assert Repeat(t, k + 1) == Repeat(t, k) + t;
  }

  /** Appending two runs of three events appends the six of them. */
  lemma AppendSix(t: seq<Event>, x: seq<Event>, y: seq<Event>)
    requires |x| == 3 && |y| == 3
    ensures t + x + y == t + [x[0], x[1], x[2], y[0], y[1], y[2]]
  {
  }

  /** Adding an entry for a new key and dropping it again gives the map that was there. */
  lemma AddThenRemove(m: map<Address, Hook>, a: Address, h: Hook)
    requires a !in m
    ensures m[a := h] - {a} == m
  {
  }

  /** Dropping an entry and putting it back gives the map that was there. */
  lemma RemoveThenAdd(m: map<Address, Hook>, a: Address, h: Hook)
    requires a in m && m[a] == h
    ensures (m - {a})[a := h] == m
  {
  }

  /**
   * What a call of an active hook returns: an instance hook with a replacer
   * returns a default value; otherwise the handler is dereferenced, which
   * throws when there is none, and the original's result or exception is
   * passed on.
   */
  function Routed(isInstance: bool, handler: Option<HandlerId>, replacer: Option<ReplacerId>, run: Run): CallOutcome
  {
    if isInstance && replacer.Some? then ReturnedDefault
    else if handler.None? then NullReferenceThrown
    else Ran(run)
  }

  /** What the caller sees of the original body itself. */
  function Ran(run: Run): CallOutcome
  {
    if run.Completes? then Returned(run.value) else OriginalThrew
  }

  /**
   * The call ends with the target unhooked: the handler path unhooks it, and
   * the original body throws before the re-hook.
   */
  predicate LeavesUnhooked(isInstance: bool, handler: Option<HandlerId>, replacer: Option<ReplacerId>, run: Run)
  {
    !(isInstance && replacer.Some?) && handler.Some? && run.Throws?
  }

  /** The handler, replacer and original-body activity of that call, in order. */
  function RoutedEvents(isInstance: bool, handler: Option<HandlerId>, replacer: Option<ReplacerId>, a: Address,
                        run: Run): seq<Event>
  {
    if isInstance && replacer.Some? then [NewFunctionCalled(replacer.value)]
    else if handler.None? then []
    else if run.Throws? then [BeforeCalled(handler.value), OriginalRan(a)]
    else [BeforeCalled(handler.value), OriginalRan(a), AfterCalled(handler.value)]
  }

  /** `t` repeated `k` times. */
  function Repeat(t: seq<Event>, k: nat): seq<Event>
  {
    if k == 0 then [] else Repeat(t, k - 1) + t
  }

  /** An event that occurs once in `t` occurs `k` times in `k` repetitions of `t`. */
  lemma {:induction false} CountRepeatOnce(t: seq<Event>, k: nat, e: Event)
    requires Count(t, e) == 1
    ensures Count(Repeat(t, k), e) == k
  {
    if k > 0 {
      CountRepeatOnce(t, k - 1, e);
      CountAppend(Repeat(t, k - 1), t, e);
    }
  }

  class HookManager {
    var hooks: map<Address, Hook>          // the active hooks
    var cacheHooks: map<Address, Hook>     // every hook ever created
    var trace: seq<Event>                  // handler and original-body activity, in order
    ghost var entries: map<Address, Entry> // the trampoline and snapshot of every cached hook
    const mem: array<byte>                 // code memory, indexed by address
    const pointerSize: nat                 // IntPtr.Size of the process

    /** Each cached hook's buffer holds the snapshot recorded for it. */
    ghost predicate SnapshotsRecorded()
      reads this`cacheHooks, this`entries, cacheHooks.Values`original
    {
      Recorded(cacheHooks, entries)
    }

    /** Every cached hook passed validation: a 64-bit process, and a target the JIT cannot have inlined. */
    ghost predicate Validated()
      reads this`cacheHooks
    {
      && (cacheHooks != map[] ==> pointerSize != 4)
      && Admitted(cacheHooks)
    }

    ghost predicate Valid()
      reads this`hooks, this`cacheHooks, this`entries, mem, cacheHooks.Values`original
    {
      Invariant(hooks, cacheHooks, entries, mem[..], mem) && SnapshotsRecorded() && Validated()
    }

    /** What hooking `a` may change besides the registry itself: its cached hook, if there is one. */
    ghost function Footprint(a: Address): set<object>
      reads this`cacheHooks
    {
      if a in cacheHooks then {cacheHooks[a]} else {}
    }

    /**
     * Model assumption about the runtime, which the source does not check:
     * the target's entry lies in memory at a nonzero address, and its 15
     * bytes do not overlap those of any other hooked function.
     */
    ghost predicate Placeable(f: TargetFunction)
      reads this`cacheHooks
    {
      && 0 < f.address && f.address + PatchLength <= mem.Length
      && (f.address !in cacheHooks ==> forall b :: b in cacheHooks ==> Disjoint(f.address, b))
    }

    constructor (mem: array<byte>, pointerSize: nat)
      ensures Valid()
      ensures this.mem == mem && this.pointerSize == pointerSize
      ensures hooks == map[] && cacheHooks == map[] && trace == []
    {
      this.mem := mem;
      this.pointerSize := pointerSize;
      hooks, cacheHooks, trace, entries := map[], map[], [], map[];
    }

    /** The active hook at `functionPointer`; the cache is not consulted. */
    method GetHook(functionPointer: Address) returns (hook: Hook?)
      ensures hook == if functionPointer in hooks then hooks[functionPointer] else null
    {
      if functionPointer in hooks {
        hook := hooks[functionPointer];
      } else {
        hook := null;
      }
    }

    /** The exception validation throws for `target`, if any: the first failing check, in the source's order. */
    ghost function Rejection(target: Option<TargetFunction>): (r: Option<HookError>)
      reads this`hooks
      ensures r.None? <==>
        target.Some? && pointerSize != 4 && !InlineCandidate(target.value) && target.value.address !in hooks
    {
      if target.None? then Some(ArgumentNull("function"))
      else if pointerSize == 4 then Some(Argument(Only64Bit))
      else if InlineCandidate(target.value) then Some(Argument(PossiblyInlined))
      else if target.value.address in hooks then Some(Argument(HookedTwice))
      else None
    }

    /** The checks made before any state changes. */
    method ValidateHookedFunction(target: Option<TargetFunction>) returns (error: Option<HookError>)
      ensures error == Rejection(target)
    {
      if target.None? {
        return Some(ArgumentNull("function"));
      }
      if pointerSize == 4 {
        return Some(Argument(Only64Bit));
      }
      var inlinable := CanBeInlined(target.value);
      if inlinable {
        return Some(Argument(PossiblyInlined));
      }
      if target.value.address in hooks {
        return Some(Argument(HookedTwice));
      }
      return None;
    }

    /** No registry state and no memory byte differs from the pre-state. */
    twostate predicate Unchanged()
      reads this, mem
    {
      && hooks == old(hooks) && cacheHooks == old(cacheHooks) && trace == old(trace)
      && mem[..] == old(mem[..])
    }

    /**
     * `h` is now the active hook at `f.address`: either the cached hook,
     * rebound (a null value leaves the old binding in place) with its
     * trampoline kept, or a new hook for `f`, bound as given, with the
     * compiled trampoline. Either way its snapshot is what the address held,
     * the address now holds the redirect, and no other byte of memory changed.
     */
    twostate predicate Installed(f: TargetFunction, handler: Option<HandlerId>, replacer: Option<ReplacerId>,
                                 compiled: Option<Address>, new h: Hook)
      reads this`hooks, this`cacheHooks, mem, h
    {
      var a := f.address;
      && a in cacheHooks && cacheHooks[a] == h
      && hooks == old(hooks)[a := h]
      && a + PatchLength <= mem.Length
      && h.original == Region(old(mem[..]), a)
      && mem[..] == Splice(old(mem[..]), a, PatchBytes(a, h.hookFunctionPointer))
      && (a in old(cacheHooks) ==>
            && old(cacheHooks[a]) == h && cacheHooks == old(cacheHooks)
            && h.hookHandler == (if replacer.None? && handler.Some? then handler else old(h.hookHandler))
            && h.functionReplacer == (if replacer.Some? then replacer else old(h.functionReplacer)))
      && (a !in old(cacheHooks) ==>
            && fresh(h) && cacheHooks == old(cacheHooks)[a := h]
            && h.target == f && h.isInstance == !f.isStatic && compiled == Some(h.hookFunctionPointer)
            && h.hookHandler == (if replacer.None? then handler else None)
            && h.functionReplacer == replacer)
    }

    /**
     * The part of `HookFunction` and `ReplaceFunction` after validation:
     * reuse the cached hook for the address or create one, then mark it active.
     * `compiled` is what compiling the trampoline yields; it is consulted only
     * when a hook is created.
     */
    method Install(f: TargetFunction, handler: Option<HandlerId>, replacer: Option<ReplacerId>,
                   compiled: Option<Address>)
      returns (r: Result<Hook, HookError>)
      requires Valid() && Placeable(f)
      requires pointerSize != 4 && !InlineCandidate(f) && f.address !in hooks
      modifies this`hooks, this`cacheHooks, this`entries, mem, Footprint(f.address)
      ensures Valid() && trace == old(trace)
      ensures r.Failure? <==> f.address !in old(cacheHooks) && compiled.None?
      ensures r.Failure? ==> r.error == CompileError && Unchanged()
      ensures r.Success? ==> Installed(f, handler, replacer, compiled, r.value)
    {
      if f.address in cacheHooks {
        var hook := Reinstall(f, handler, replacer);
        r := Success(hook);
      } else if compiled.None? {
        r := Failure(CompileError);
      } else {
        var hook := InstallNew(f, handler, replacer, compiled.value);
        r := Success(hook);
      }
    }

    /** A first hook of `f`: created, patched in, cached and activated. */
    method InstallNew(f: TargetFunction, handler: Option<HandlerId>, replacer: Option<ReplacerId>,
                      trampoline: Address)
      returns (hook: Hook)
      requires Valid() && Placeable(f)
      requires pointerSize != 4 && !InlineCandidate(f) && f.address !in cacheHooks
      modifies this`hooks, this`cacheHooks, this`entries, mem
      ensures Valid()
      ensures Installed(f, handler, replacer, Some(trampoline), hook)
    {
      ghost var m0 := mem[..];
      hook := new Hook(f, handler, replacer, trampoline, mem);
      Register(hook, m0);
    }

    /** Records `hook`, created and patched in over memory that held `m0`, as the cached and active hook at its address. */
    method Register(hook: Hook, ghost m0: seq<byte>)
      requires Invariant(hooks, cacheHooks, entries, m0, mem) && SnapshotsRecorded() && Validated()
      requires WellFormed(hook.functionPointer, hook, mem) && hook.functionPointer !in cacheHooks
      requires forall b :: b in cacheHooks ==> Disjoint(hook.functionPointer, b)
      requires |m0| == mem.Length && hook.original == Region(m0, hook.functionPointer)
      requires mem[..] == Splice(m0, hook.functionPointer, PatchBytes(hook.functionPointer, hook.hookFunctionPointer))
      requires pointerSize != 4 && hook.target.address == hook.functionPointer && !InlineCandidate(hook.target)
      modifies this`hooks, this`cacheHooks, this`entries
      ensures Valid()
      ensures hooks == old(hooks)[hook.functionPointer := hook] && cacheHooks == old(cacheHooks)[hook.functionPointer := hook]
    {
      var a := hook.functionPointer;
      var e := Entry(hook.hookFunctionPointer, hook.original);
      InvariantAfterCreate(hooks, cacheHooks, entries, m0, mem, hook);
      RecordedInsert(cacheHooks, entries, a, hook, e);
      AdmittedInsert(cacheHooks, a, hook);
      hooks, cacheHooks, entries := hooks[a := hook], cacheHooks[a := hook], entries[a := e];
    }

    /** A new hook of a previously hooked `f`: the cached hook, rebound and patched in again. */
    method Reinstall(f: TargetFunction, handler: Option<HandlerId>, replacer: Option<ReplacerId>)
      returns (hook: Hook)
      requires Valid() && Placeable(f)
      requires f.address in cacheHooks && f.address !in hooks
      modifies this`hooks, mem, Footprint(f.address)
      ensures Valid() && trace == old(trace)
      ensures Installed(f, handler, replacer, None, hook)
    {
      var a := f.address;
      hook := cacheHooks[a];
      Rebind(hook, handler, replacer);
      Repatch(a, hook);
    }

    /** `ReplaceFunction` sets the cached hook's replacer, `HookFunction` its handler; a null value changes nothing. */
    method Rebind(hook: Hook, handler: Option<HandlerId>, replacer: Option<ReplacerId>)
      requires Valid()
      modifies hook`hookHandler, hook`functionReplacer
      ensures Valid() && mem[..] == old(mem[..])
      ensures hook.hookHandler == (if replacer.None? && handler.Some? then handler else old(hook.hookHandler))
      ensures hook.functionReplacer == (if replacer.Some? then replacer else old(hook.functionReplacer))
    {
      if replacer.Some? {
        hook.SetFunctionReplacer(replacer);
      } else {
        hook.SetHookHandler(handler);
      }
    }

    /** Writes the redirect of the cached, inactive hook at `a` again and marks it active. */
    method Repatch(a: Address, hook: Hook)
      requires Valid() && a in cacheHooks && a !in hooks && hook == cacheHooks[a]
      modifies this`hooks, mem, hook`original
      ensures Valid() && hooks == old(hooks)[a := hook]
      ensures hook.original == Region(old(mem[..]), a)
      ensures mem[..] == Splice(old(mem[..]), a, PatchBytes(a, hook.hookFunctionPointer))
    {
      ghost var m0 := mem[..];
      InvariantAfterRepatch(hooks, cacheHooks, entries, m0, mem, a);
      hook.UpdateOriginalFunction(mem);
      hooks := hooks[a := hook];
      forall b | b in cacheHooks && b != a
        ensures cacheHooks[b].original == entries[b].snapshot
      {
        assert cacheHooks[b].functionPointer != hook.functionPointer;
      }
    }

    /**
     * `HookFunction`: validates `target`, then reuses its cached hook with
     * `hookHandler` bound, or creates one whose trampoline compiles to
     * `compiled`, and makes it the active hook at the target's address.
     * A null handler is accepted; calls of the target then fail in the
     * trampoline.
     */
    method HookFunction(target: Option<TargetFunction>, hookHandler: Option<HandlerId>, compiled: Option<Address>)
      returns (r: Result<Hook, HookError>)
      requires Valid() && (target.Some? ==> Placeable(target.value))
      modifies this`hooks, this`cacheHooks, this`entries, mem
      modifies if target.Some? then Footprint(target.value.address) else {}
      ensures Valid() && trace == old(trace)
      ensures old(Rejection(target)).Some? ==> r == Failure(old(Rejection(target)).value) && Unchanged()
      ensures old(Rejection(target)).None? ==>
                (r.Failure? <==> target.value.address !in old(cacheHooks) && compiled.None?)
      ensures old(Rejection(target)).None? && r.Failure? ==> r.error == CompileError && Unchanged()
      ensures r.Success? ==> old(Rejection(target)).None? && Installed(target.value, hookHandler, None, compiled, r.value)
    {
      var error := ValidateHookedFunction(target);
      if error.Some? {
        return Failure(error.value);
      }
      r := Install(target.value, hookHandler, None, compiled);
    }

    /**
     * `ReplaceFunction`: as `HookFunction`, but binds a replacer, which must
     * not be null; the null check comes before validation.
     */
    method ReplaceFunction(target: Option<TargetFunction>, functionReplacer: Option<ReplacerId>, compiled: Option<Address>)
      returns (r: Result<Hook, HookError>)
      requires Valid() && (target.Some? ==> Placeable(target.value))
      modifies this`hooks, this`cacheHooks, this`entries, mem
      modifies if target.Some? then Footprint(target.value.address) else {}
      ensures Valid() && trace == old(trace)
      ensures functionReplacer.None? ==> r == Failure(ArgumentNull("functionReplacer")) && Unchanged()
      ensures functionReplacer.Some? && old(Rejection(target)).Some? ==>
                r == Failure(old(Rejection(target)).value) && Unchanged()
      ensures functionReplacer.Some? && old(Rejection(target)).None? ==>
                (r.Failure? <==> target.value.address !in old(cacheHooks) && compiled.None?)
      ensures functionReplacer.Some? && old(Rejection(target)).None? && r.Failure? ==>
                r.error == CompileError && Unchanged()
      ensures r.Success? ==>
                functionReplacer.Some? && old(Rejection(target)).None? &&
                Installed(target.value, None, functionReplacer, compiled, r.value)
    {
      if functionReplacer.None? {
        return Failure(ArgumentNull("functionReplacer"));
      }
      var error := ValidateHookedFunction(target);
      if error.Some? {
        return Failure(error.value);
      }
      r := Install(target.value, None, functionReplacer, compiled);
    }

    /**
     * `UnHookFunction(IntPtr)`: if a hook is active at `functionPointer`,
     * writes its saved bytes back and drops it from the active hooks (it stays
     * cached); otherwise changes nothing. The result says which happened.
     */
    method UnHookFunctionAt(functionPointer: Address) returns (removed: bool)
      requires Valid()
      modifies this`hooks, mem
      ensures Valid()
      ensures removed <==> functionPointer in old(hooks)
      ensures cacheHooks == old(cacheHooks) && trace == old(trace)
      ensures removed ==>
                hooks == old(hooks) - {functionPointer} &&
                mem[..] == Splice(old(mem[..]), functionPointer, cacheHooks[functionPointer].original)
      ensures !removed ==> hooks == old(hooks) && mem[..] == old(mem[..])
    {
      if functionPointer in hooks {
        Restore(functionPointer, hooks[functionPointer]);
        return true;
      }
      return false;
    }

    /** Writes the saved bytes of the active hook at `a` back and marks it inactive. */
    method Restore(a: Address, hook: Hook)
      requires Valid() && a in hooks && hook == hooks[a]
      modifies this`hooks, mem
      ensures Valid() && hooks == old(hooks) - {a}
      ensures mem[..] == Splice(old(mem[..]), a, hook.original)
    {
      ghost var m0 := mem[..];
      InvariantAfterRestore(hooks, cacheHooks, entries, m0, mem, a);
      hook.UnHook(mem);
      hooks := hooks - {a};
    }

    /** `UnHookFunction(Hook)`: unhooks by the hook's target address. */
    method UnHookFunction(hook: Hook) returns (removed: bool)
      requires Valid()
      modifies this`hooks, mem
      ensures Valid()
      ensures removed <==> hook.functionPointer in old(hooks)
      ensures cacheHooks == old(cacheHooks) && trace == old(trace)
      ensures removed ==>
                hooks == old(hooks) - {hook.functionPointer} &&
                mem[..] == Splice(old(mem[..]), hook.functionPointer, cacheHooks[hook.functionPointer].original)
      ensures !removed ==> hooks == old(hooks) && mem[..] == old(mem[..])
    {
      removed := UnHookFunctionAt(hook.functionPointer);
    }

    /**
     * A call of the function at `a`, whose original body ends as `run` says.
     * At an inactive address the original body runs; at an active one the
     * processor runs the patched entry.
     */
    method Call(a: Address, run: Run) returns (outcome: CallOutcome)
      requires Valid()
      modifies this`hooks, this`cacheHooks, this`entries, this`trace, mem, Footprint(a)
      ensures Valid() && cacheHooks == old(cacheHooks)
      ensures a in cacheHooks ==>
                var h := cacheHooks[a];
                && h.hookHandler == old(h.hookHandler) && h.functionReplacer == old(h.functionReplacer)
                && h.original == old(h.original)
      ensures a !in old(hooks) ==>
                && outcome == Ran(run) && trace == old(trace) + [OriginalRan(a)]
                && hooks == old(hooks) && mem[..] == old(mem[..])
      ensures a in old(hooks) && !Reaches(a, old(hooks[a]).hookFunctionPointer) ==>
                && outcome == Strayed(a + PatchLength + Rel32(a, old(hooks[a]).hookFunctionPointer))
                && trace == old(trace) && hooks == old(hooks) && mem[..] == old(mem[..])
      ensures a in old(hooks) && Reaches(a, old(hooks[a]).hookFunctionPointer) ==>
                var h := old(hooks[a]);
                var unhooked := LeavesUnhooked(h.isInstance, h.hookHandler, h.functionReplacer, run);
                && outcome == Routed(h.isInstance, h.hookHandler, h.functionReplacer, run)
                && trace == old(trace) + RoutedEvents(h.isInstance, h.hookHandler, h.functionReplacer, a, run)
                && hooks == (if unhooked then old(hooks) - {a} else old(hooks))
                && mem[..] == (if unhooked then Splice(old(mem[..]), a, h.original) else old(mem[..]))
    {
      if a !in hooks {
        trace := trace + [OriginalRan(a)];
        outcome := Ran(run);
      } else {
        outcome := RunPatchedEntry(a, run);
      }
    }

    /**
     * The processor runs the patched entry at the active address `a`: it
     * loads `a` into RBX and jumps by the displacement stored in the entry.
     * That lands on the trampoline only when the trampoline is within reach;
     * anywhere else, what runs is not modelled. The trampoline looks the
     * hook up by the value in RBX; then, for an instance target with a
     * replacer, it calls the replacer and returns a default value; otherwise
     * it calls the handler's `Before`, unhooks, runs the original body, hooks
     * again with the same handler and calls `After`. A missing handler is
     * dereferenced, and the call throws before anything changes. An original
     * body that throws skips the re-hook and `After`, and leaves the target
     * unhooked. The static routine never looks at the replacer.
     */
    method RunPatchedEntry(a: Address, run: Run) returns (outcome: CallOutcome)
      requires Valid() && a in hooks
      modifies this`hooks, this`cacheHooks, this`entries, this`trace, mem, hooks[a]
      ensures Valid() && cacheHooks == old(cacheHooks)
      ensures var h := old(hooks[a]);
              && h.hookHandler == old(h.hookHandler) && h.functionReplacer == old(h.functionReplacer)
              && h.original == old(h.original)
      ensures !Reaches(a, old(hooks[a]).hookFunctionPointer) ==>
                && outcome == Strayed(a + PatchLength + Rel32(a, old(hooks[a]).hookFunctionPointer))
                && trace == old(trace) && hooks == old(hooks) && mem[..] == old(mem[..])
      ensures Reaches(a, old(hooks[a]).hookFunctionPointer) ==>
                var h := old(hooks[a]);
                var unhooked := LeavesUnhooked(h.isInstance, h.hookHandler, h.functionReplacer, run);
                && outcome == Routed(h.isInstance, h.hookHandler, h.functionReplacer, run)
                && trace == old(trace) + RoutedEvents(h.isInstance, h.hookHandler, h.functionReplacer, a, run)
                && hooks == (if unhooked then old(hooks) - {a} else old(hooks))
                && mem[..] == (if unhooked then Splice(old(mem[..]), a, h.original) else old(mem[..]))
    {
      var trampoline := hooks[a].hookFunctionPointer;
      var code := Region(mem[..], a);                  // the patched entry
      PatchDecodes(a, trampoline);
      PatchJumpsBy(a, trampoline);
      PatchReaches(a, trampoline);
      var destination := JumpDestination(a, code);
      if destination != trampoline {
        outcome := Strayed(destination);
      } else {
        var rbx := LoadedRbx(code);                    // Hook.GetRBX() inside the trampoline
        var hook := GetHook(rbx);
        outcome := Trampoline(hook, run);
      }
    }

    /** The trampoline's routine once it has found the active `hook`. */
    method Trampoline(hook: Hook, run: Run) returns (outcome: CallOutcome)
      requires Valid() && hook.functionPointer in hooks && hooks[hook.functionPointer] == hook
      modifies this`hooks, this`cacheHooks, this`entries, this`trace, mem, hook
      ensures Valid() && cacheHooks == old(cacheHooks)
      ensures hook.hookHandler == old(hook.hookHandler) && hook.functionReplacer == old(hook.functionReplacer)
      ensures hook.original == old(hook.original)
      ensures outcome == Routed(hook.isInstance, hook.hookHandler, hook.functionReplacer, run)
      ensures trace == old(trace) + RoutedEvents(hook.isInstance, hook.hookHandler, hook.functionReplacer, hook.functionPointer, run)
      ensures !LeavesUnhooked(hook.isInstance, hook.hookHandler, hook.functionReplacer, run) ==>
                hooks == old(hooks) && mem[..] == old(mem[..])
      ensures LeavesUnhooked(hook.isInstance, hook.hookHandler, hook.functionReplacer, run) ==>
                && hooks == old(hooks) - {hook.functionPointer}
                && mem[..] == Splice(old(mem[..]), hook.functionPointer, hook.original)
    {
      if hook.isInstance && hook.functionReplacer.Some? {
        trace := trace + [NewFunctionCalled(hook.functionReplacer.value)];
        outcome := ReturnedDefault;
      } else if hook.hookHandler.None? {
        outcome := NullReferenceThrown;
      } else {
        var handler := hook.hookHandler.value;
        ghost var t0 := trace;
        trace := trace + [BeforeCalled(handler)];
        CallThrough(hook, run);
        if run.Throws? {
          AppendTwo(t0, BeforeCalled(handler), OriginalRan(hook.functionPointer));
          outcome := OriginalThrew;
        } else {
          trace := trace + [AfterCalled(hook.hookHandler.value)];
          AppendThree(t0, BeforeCalled(handler), OriginalRan(hook.functionPointer), AfterCalled(handler));
          outcome := Returned(run.value);
        }
      }
    }

    /**
     * The middle of the trampoline: unhook the target, run its original body,
     * and hook it again with the handler it has. Re-hooking passes validation,
     * because the hook passed it before and is no longer active, and reuses
     * the cached hook, so the registry, the binding and memory end as they
     * began. An original body that throws skips the re-hook: the target stays
     * unhooked, with its snapshot written back.
     */
    method CallThrough(hook: Hook, run: Run)
      requires Valid() && hook.functionPointer in hooks && hooks[hook.functionPointer] == hook
      modifies this`hooks, this`cacheHooks, this`entries, this`trace, mem, hook
      ensures Valid() && cacheHooks == old(cacheHooks)
      ensures trace == old(trace) + [OriginalRan(hook.functionPointer)]
      ensures hook.hookHandler == old(hook.hookHandler) && hook.functionReplacer == old(hook.functionReplacer)
      ensures hook.original == old(hook.original)
      ensures run.Completes? ==> hooks == old(hooks) && mem[..] == old(mem[..])
      ensures run.Throws? ==>
                && hooks == old(hooks) - {hook.functionPointer}
                && mem[..] == Splice(old(mem[..]), hook.functionPointer, hook.original)
    {
      var a := hook.functionPointer;
      ghost var m0 := mem[..];
      ghost var h0 := hooks;
      var removed := UnHookFunction(hook);
      trace := trace + [OriginalRan(a)];
      if run.Throws? {
        return;                                      // the exception leaves before the re-hook
      }
      Rehook(hook);
      RegionOfSplice(m0, a, old(hook.original));
      SpliceTwice(m0, a, hook.original, PatchBytes(a, hook.hookFunctionPointer));
      SpliceSame(m0, a);
      RemoveThenAdd(h0, a, hook);
    }

    /**
     * One call of the function at an active address whose hook runs
     * `handler` and whose original body completes: `Before`, the original
     * body and `After` run once each, and the registry and memory end as
     * they began.
     */
    method CallHandled(a: Address, handler: HandlerId, result: int)
      requires Valid() && a in hooks && hooks[a].hookHandler == Some(handler)
      requires !(hooks[a].isInstance && hooks[a].functionReplacer.Some?)
      requires Reaches(a, hooks[a].hookFunctionPointer)
      modifies this`hooks, this`cacheHooks, this`entries, this`trace, mem, Footprint(a)
      ensures Valid() && hooks == old(hooks) && cacheHooks == old(cacheHooks) && mem[..] == old(mem[..])
      ensures hooks[a].hookHandler == Some(handler)
      ensures hooks[a].functionReplacer == old(hooks[a].functionReplacer)
      ensures trace == old(trace) + [BeforeCalled(handler), OriginalRan(a), AfterCalled(handler)]
    {
      var outcome := Call(a, Completes(result));
    }

    /**
     * `n` calls of the function at an active address whose hook runs
     * `handler` (an instance target has no replacer) and whose original body
     * completes: the handler's `Before` and `After` each run exactly `n` more
     * times, the original body runs `n` more times, and the registry and
     * memory end as they began.
     */
    method CallRepeatedly(a: Address, handler: HandlerId, n: nat, result: int)
      requires Valid() && a in hooks && hooks[a].hookHandler == Some(handler)
      requires !(hooks[a].isInstance && hooks[a].functionReplacer.Some?)
      requires Reaches(a, hooks[a].hookFunctionPointer)
      modifies this`hooks, this`cacheHooks, this`entries, this`trace, mem, Footprint(a)
      ensures Valid() && hooks == old(hooks) && cacheHooks == old(cacheHooks) && mem[..] == old(mem[..])
      ensures hooks[a].hookHandler == Some(handler)
      ensures hooks[a].functionReplacer == old(hooks[a].functionReplacer)
      ensures trace == old(trace) + Repeat([BeforeCalled(handler), OriginalRan(a), AfterCalled(handler)], n)
      ensures && Count(trace, BeforeCalled(handler)) == Count(old(trace), BeforeCalled(handler)) + n
              && Count(trace, AfterCalled(handler)) == Count(old(trace), AfterCalled(handler)) + n
              && Count(trace, OriginalRan(a)) == Count(old(trace), OriginalRan(a)) + n
    {
      ghost var events := [BeforeCalled(handler), OriginalRan(a), AfterCalled(handler)];
      var i := 0;
      while i < n
        invariant i <= n && Valid()
        invariant hooks == old(hooks) && cacheHooks == old(cacheHooks) && mem[..] == old(mem[..])
        invariant hooks[a].hookHandler == Some(handler)
        invariant hooks[a].functionReplacer == old(hooks[a].functionReplacer)
        invariant trace == old(trace) + Repeat(events, i)
      {
        CallHandled(a, handler, result);
        AppendRepeat(old(trace), events, i);
        i := i + 1;
      }
      RepeatedCallsCounted(old(trace), handler, a, n);
    }

    /** `HookFunction(hook.Function, hook.HookHandler)` for an inactive cached hook: it succeeds, reusing the hook as it is. */
    method Rehook(hook: Hook)
      requires Valid() && hook.functionPointer in cacheHooks && cacheHooks[hook.functionPointer] == hook
      requires hook.functionPointer !in hooks
      modifies this`hooks, this`cacheHooks, this`entries, mem, hook
      ensures Valid()
      ensures hooks == old(hooks)[hook.functionPointer := hook] && cacheHooks == old(cacheHooks)
      ensures hook.original == Region(old(mem[..]), hook.functionPointer)
      ensures mem[..] == Splice(old(mem[..]), hook.functionPointer, PatchBytes(hook.functionPointer, hook.hookFunctionPointer))
      ensures hook.hookHandler == old(hook.hookHandler) && hook.functionReplacer == old(hook.functionReplacer)
    {
      var r := HookFunction(Some(hook.target), hook.hookHandler, None);
      assert r.Success? && r.value == hook;
    }

    /** `HookFunction` for a function never hooked before, with a handler and a trampoline that compiles. */
    method HookFresh(f: TargetFunction, handler: HandlerId, compiled: Address) returns (hook: Hook)
      requires Valid() && Placeable(f) && Rejection(Some(f)).None? && f.address !in cacheHooks
      modifies this`hooks, this`cacheHooks, this`entries, mem
      ensures Valid() && fresh(hook) && trace == old(trace) && hook.hookFunctionPointer == compiled
      ensures hook.functionPointer == f.address && hook.hookHandler == Some(handler) && hook.functionReplacer == None
      ensures hooks == old(hooks)[f.address := hook] && cacheHooks == old(cacheHooks)[f.address := hook]
      ensures hook.original == Region(old(mem[..]), f.address)
      ensures mem[..] == Splice(old(mem[..]), f.address, PatchBytes(f.address, hook.hookFunctionPointer))
    {
      var r := HookFunction(Some(f), Some(handler), Some(compiled));
      hook := r.value;
    }

    /** `HookFunction` for a function hooked before and since unhooked: the cached hook is reused and rebound. */
    method HookCached(f: TargetFunction, handler: HandlerId) returns (hook: Hook)
      requires Valid() && Placeable(f) && Rejection(Some(f)).None? && f.address in cacheHooks
      modifies this`hooks, this`cacheHooks, this`entries, mem, cacheHooks[f.address]
      ensures Valid() && trace == old(trace)
      ensures hook == old(cacheHooks[f.address]) && hook.hookHandler == Some(handler)
      ensures hook.functionReplacer == old(hook.functionReplacer)
      ensures hooks == old(hooks)[f.address := hook] && cacheHooks == old(cacheHooks)
    {
      ghost var h := cacheHooks[f.address];
      assert Footprint(f.address) == {h};
      var r := HookFunction(Some(f), Some(handler), None);
      assert r.Success?;
      hook := r.value;
      assert Installed(f, Some(handler), None, None, hook);
    }

    /** A function never hooked before, hooked with `handler` and then called once. */
    method HookAndCall(f: TargetFunction, handler: HandlerId, compiled: Address, result: int)
      returns (hook: Hook, outcome: CallOutcome)
      requires Valid() && Placeable(f) && Rejection(Some(f)).None? && f.address !in cacheHooks
      requires Reaches(f.address, compiled)
      modifies this`hooks, this`cacheHooks, this`entries, this`trace, mem
      ensures Valid() && fresh(hook) && outcome == Returned(result) && hook.hookFunctionPointer == compiled
      ensures hook.functionPointer == f.address && hook.hookHandler == Some(handler) && hook.functionReplacer == None
      ensures f.address !in old(hooks)
      ensures hooks == old(hooks)[f.address := hook] && cacheHooks == old(cacheHooks)[f.address := hook]
      ensures hook.original == Region(old(mem[..]), f.address)
      ensures mem[..] == Splice(old(mem[..]), f.address, PatchBytes(f.address, hook.hookFunctionPointer))
      ensures trace == old(trace) + [BeforeCalled(handler), OriginalRan(f.address), AfterCalled(handler)]
    {
      hook := HookFresh(f, handler, compiled);
      outcome := Call(f.address, Completes(result));
    }

    /** A function never hooked before, hooked with `handler`, called once and unhooked: only the cache remembers it. */
    method HookCallRelease(f: TargetFunction, handler: HandlerId, compiled: Address, result: int)
      returns (hook: Hook, outcome: CallOutcome)
      requires Valid() && Placeable(f) && Rejection(Some(f)).None? && f.address !in cacheHooks
      requires Reaches(f.address, compiled)
      modifies this`hooks, this`cacheHooks, this`entries, this`trace, mem
      ensures Valid() && fresh(hook) && outcome == Returned(result) && hook.hookFunctionPointer == compiled
      ensures hook.functionPointer == f.address && hook.hookHandler == Some(handler) && hook.functionReplacer == None
      ensures hooks == old(hooks) && cacheHooks == old(cacheHooks)[f.address := hook]
      ensures mem[..] == old(mem[..])
      ensures trace == old(trace) + [BeforeCalled(handler), OriginalRan(f.address), AfterCalled(handler)]
    {
      var a := f.address;
      ghost var m0, h0 := mem[..], hooks;
      hook, outcome := HookAndCall(f, handler, compiled, result);
      var removed := UnHookFunction(hook);
      AddThenRemove(h0, a, hook);
      SpliceRestores(m0, a, PatchBytes(a, hook.hookFunctionPointer));
    }

    /** A function hooked before and since unhooked, hooked again with `handler` and called once. */
    method RehookAndCall(f: TargetFunction, handler: HandlerId, result: int) returns (hook: Hook, outcome: CallOutcome)
      requires Valid() && Placeable(f) && Rejection(Some(f)).None? && f.address in cacheHooks
      requires cacheHooks[f.address].functionReplacer == None && Reaches(f.address, cacheHooks[f.address].hookFunctionPointer)
      modifies this`hooks, this`cacheHooks, this`entries, this`trace, mem, cacheHooks[f.address]
      ensures Valid() && outcome == Returned(result)
      ensures hook == old(cacheHooks[f.address]) && hook.hookHandler == Some(handler) && hook.functionReplacer == None
      ensures hooks == old(hooks)[f.address := hook] && cacheHooks == old(cacheHooks)
      ensures trace == old(trace) + [BeforeCalled(handler), OriginalRan(f.address), AfterCalled(handler)]
    {
      hook := HookCached(f, handler);
      outcome := Call(f.address, Completes(result));
    }

    /**
     * Hook a function that was never hooked, call it, unhook it and call it
     * again: the handler runs around the first call only, both calls return
     * the original's result, and the active hooks and every byte of memory
     * end as they began.
     */
    method HookCallUnhook(f: TargetFunction, handler: HandlerId, compiled: Address, result: int)
      returns (first: CallOutcome, second: CallOutcome)
      requires Valid() && Placeable(f) && Rejection(Some(f)).None? && f.address !in cacheHooks
      requires Reaches(f.address, compiled)
      modifies this`hooks, this`cacheHooks, this`entries, this`trace, mem
      ensures Valid()
      ensures first == Returned(result) && second == Returned(result)
      ensures hooks == old(hooks) && mem[..] == old(mem[..])
      ensures trace == old(trace) + [BeforeCalled(handler), OriginalRan(f.address), AfterCalled(handler), OriginalRan(f.address)]
    {
      var hook;
      hook, first := HookCallRelease(f, handler, compiled, result);
      second := Call(f.address, Completes(result));
    }

    /**
     * Hook a function, call it, unhook it, hook it with a second handler and
     * call it again: the second hook is the cached hook object, rebound, so no
     * new trampoline is compiled, and each handler runs around one call.
     */
    method HookTwice(f: TargetFunction, firstHandler: HandlerId, secondHandler: HandlerId, compiled: Address, result: int)
      returns (hook: Hook, rehooked: Hook, first: CallOutcome, second: CallOutcome)
      requires Valid() && Placeable(f) && Rejection(Some(f)).None? && f.address !in cacheHooks
      requires Reaches(f.address, compiled)
      modifies this`hooks, this`cacheHooks, this`entries, this`trace, mem
      ensures Valid()
      ensures rehooked == hook && hook.hookHandler == Some(secondHandler) && hook.functionReplacer == None
      ensures first == Returned(result) && second == Returned(result)
      ensures hooks == old(hooks)[f.address := hook] && cacheHooks == old(cacheHooks)[f.address := hook]
      ensures trace == old(trace) + [BeforeCalled(firstHandler), OriginalRan(f.address), AfterCalled(firstHandler),
                                     BeforeCalled(secondHandler), OriginalRan(f.address), AfterCalled(secondHandler)]
    {
      ghost var t0 := trace;
      hook, first := HookCallRelease(f, firstHandler, compiled, result);
      rehooked, second := RehookAndCall(f, secondHandler, result);
      AppendSix(t0, [BeforeCalled(firstHandler), OriginalRan(f.address), AfterCalled(firstHandler)],
                [BeforeCalled(secondHandler), OriginalRan(f.address), AfterCalled(secondHandler)]);
    }
  }
}
