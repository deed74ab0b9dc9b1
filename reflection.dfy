/**
 * What the hooking engine learns about a target through .NET reflection,
 * reduced to plain values. The runtime lookups themselves
 * (`MethodHandle.GetFunctionPointer`, `GetParameters`, `GetMethodBody`,
 * `Assembly.GetCustomAttributes`) are not modelled; their answers are the
 * fields below.
 */
module Reflection {
  import opened Bytes

  /** A `System.Type` as far as the trampoline builder inspects it. */
  datatype TypeInfo = TypeInfo(fullName: string, isPublic: bool, isValueType: bool, isVisible: bool)

  /** A custom attribute of the target's assembly. */
  datatype AssemblyAttribute =
    | DebuggableAttribute(isJitOptimizerDisabled: bool)
    | OtherAttribute(typeName: string)

  /** `MethodImplAttributes.NoInlining`. */
  const NoInlining: nat := 8

  /** A compiled method (`MethodBase`) that may be hooked. */
  datatype TargetFunction = TargetFunction(
    address: Address,                      // MethodHandle.GetFunctionPointer()
    parameterTypes: seq<TypeInfo>,         // GetParameters(), in order
    returnType: TypeInfo,                  // MethodInfo.ReturnType (System.Void when none)
    isStatic: bool,
    isConstructor: bool,
    ilSize: nat,                           // GetMethodBody().GetILAsByteArray().Length
    implementationFlags: nat,              // MethodImplementationFlags
    assemblyAttributes: seq<AssemblyAttribute>)
}
