/**
 * One hook: a target address, the 15 bytes saved from it, the trampoline
 * compiled for it, and its current handler binding. `UpdateOriginalFunction`
 * saves the target's entry bytes and writes the redirect over them;
 * `UnHook` writes the saved bytes back.
 */
module Hooks {
  import opened Bytes
  import opened Prologue
  import opened Wrappers
  import opened Reflection

  /** An `IHookHandler` instance, by identity. */
  type HandlerId = nat

  /** An `IFunctionReplacer` instance, by identity. */
  type ReplacerId = nat

  class Hook {
    const target: TargetFunction
    const functionPointer: Address          // the target's entry point
    const hookFunctionPointer: Address      // entry point of the compiled trampoline
    const isInstance: bool                  // MyInstanceHook rather than MyStaticHook
    var original: seq<byte>                 // the saved entry bytes
    var hookHandler: Option<HandlerId>
    var functionReplacer: Option<ReplacerId>

    /**
     * Creates the hook for `f` with the trampoline the code generator
     * produced at `trampoline`, binds the replacer if there is one and the
     * handler otherwise, and patches the target.
     */
    constructor (f: TargetFunction, handler: Option<HandlerId>, replacer: Option<ReplacerId>,
                 trampoline: Address, mem: array<byte>)
      requires f.address == 0 || f.address + PatchLength <= mem.Length
      modifies mem
      ensures target == f && functionPointer == f.address && hookFunctionPointer == trampoline
      ensures isInstance == !f.isStatic
      ensures |original| == PatchLength
      ensures replacer.Some? ==> functionReplacer == replacer && hookHandler == None
      ensures replacer.None? ==> hookHandler == handler && functionReplacer == None
      ensures f.address != 0 ==>
                original == Region(old(mem[..]), f.address) &&
                mem[..] == Splice(old(mem[..]), f.address, PatchBytes(f.address, trampoline))
      ensures f.address == 0 ==> original == seq(PatchLength, _ => 0) && mem[..] == old(mem[..])
    {
      target := f;
      functionPointer := f.address;
      hookFunctionPointer := trampoline;
      isInstance := !f.isStatic;
      original := seq(PatchLength, _ => 0);
      hookHandler := None;
      functionReplacer := None;
      new;
      if replacer.Some? {
        SetFunctionReplacer(replacer);
      } else {
        SetHookHandler(handler);
      }
      UpdateOriginalFunction(mem);
    }

    /** The `HookHandler` setter: only a non-null value replaces the current one. */
    method SetHookHandler(value: Option<HandlerId>)
      modifies this`hookHandler
      ensures hookHandler == if value.Some? then value else old(hookHandler)
    {
      if value.Some? && hookHandler != value {
        hookHandler := value;
      }
    }

    /** The `FunctionReplacer` setter: only a non-null value replaces the current one. */
    method SetFunctionReplacer(value: Option<ReplacerId>)
      modifies this`functionReplacer
      ensures functionReplacer == if value.Some? then value else old(functionReplacer)
    {
      if value.Some? && functionReplacer != value {
        functionReplacer := value;
      }
    }

    /**
     * Saves the 15 bytes at the target, then writes `MOV RBX, target` and
     * `JMP trampoline` over them. A null target pointer changes nothing.
     */
    method UpdateOriginalFunction(mem: array<byte>)
      requires |original| == PatchLength
      requires functionPointer == 0 || functionPointer + PatchLength <= mem.Length
      modifies mem, this`original
      ensures functionPointer == 0 ==> mem[..] == old(mem[..]) && original == old(original)
      ensures functionPointer != 0 ==>
                original == Region(old(mem[..]), functionPointer) &&
                mem[..] == Splice(old(mem[..]), functionPointer, PatchBytes(functionPointer, hookFunctionPointer))
    {
      var p: nat := functionPointer;
      if p != 0 {
        for i := 0 to PatchLength      // copy the entry bytes
          invariant |original| == PatchLength
          invariant original[..i] == mem[p..p + i]
          invariant mem[..] == old(mem[..])
        {
          original := original[i := mem[p + i]];
        }
        WritePatch(mem, p, hookFunctionPointer);
      }
    }

    /** Writes the saved 15 bytes back over the target. */
    method UnHook(mem: array<byte>)
      requires |original| == PatchLength
      requires functionPointer + PatchLength <= mem.Length
      modifies mem
      ensures mem[..] == Splice(old(mem[..]), functionPointer, original)
    {
      var p: nat := functionPointer;
      for i := 0 to PatchLength
        invariant mem[..p] == old(mem[..p]) && mem[p + PatchLength..] == old(mem[p + PatchLength..])
        invariant mem[p..p + i] == original[..i]
        invariant mem[p + i..p + PatchLength] == old(mem[p + i..p + PatchLength])
      {
        mem[p + i] := original[i];
      }
      assert mem[..] == mem[..p] + mem[p..p + PatchLength] + mem[p + PatchLength..];
    }
  }
}
