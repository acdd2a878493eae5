/** The host side of the boundary: the state registry, the host functions,
    the dispatcher that routes guest calls by index (`Externals::invoke_index`)
    and the import resolver that hands those indices out. */
module Host {
  import opened Wrappers
  import opened I32
  import opened Values

  /** Host-owned state reachable from the guest through an integer handle. */
  datatype State = State(value: i32)

  /** `State::add`: `self.0 += a`, wrapping on overflow. */
  function AddToState(s: State, a: i32): (t: State)
    ensures (t.value - s.value - a) % Modulus == 0
    ensures InRange(s.value + a) ==> t.value == s.value + a
  {
    State(WrappingAdd(s.value, a))
  }

  /** The registry from handles to host states (`HashMap<i32, State>`). */
  type Registry = map<i32, State>

  /** The host's externals: everything a host function may read or change. */
  datatype Runtime = Runtime(states: Registry)

  /** `Runtime::multiply`: the product, wrapping on overflow. */
  function Multiply(a: i32, b: i32): (c: i32)
    ensures (c - a * b) % Modulus == 0
    ensures InRange(a * b) ==> c == a * b
  {
    WrappingMul(a, b)
  }

  /** `HashMap::insert` on the registry: installs `s` under `handle`,
      replacing any previous state and keeping every other entry. */
  function InsertState(rt: Runtime, handle: i32, s: State): (r: Runtime)
    ensures r.states.Keys == rt.states.Keys + {handle}
    ensures handle in r.states && r.states[handle] == s
    ensures forall k :: k in rt.states && k != handle ==> r.states[k] == rt.states[k]
  {
    Runtime(rt.states[handle := s])
  }

  const MultFuncIndex: nat := 0
  const StateAddFuncIndex: nat := 1

  /** Why a host call aborted: an index no resolver handed out, an argument
      that is missing or not an i32 (`RuntimeArgs::nth`), or a handle with no
      registered state (the `unwrap` of the registry lookup). */
  datatype Panic = UnknownFunctionIndex | BadArgument(position: nat) | MissingState(handle: i32)

  /** The outcome of a host call: its return value and the new externals, or a panic. */
  datatype Invocation = Returned(result: Option<RuntimeValue>, runtime: Runtime) | Panicked(reason: Panic)

  /** `args.nth::<i32>(n)`: the n-th argument when it is present and an i32. */
  function Arg(args: seq<RuntimeValue>, n: nat): (r: Option<i32>)
    ensures r.Some? <==> n < |args| && args[n].I32?
    ensures r.Some? ==> args[n] == I32(r.value)
  {
    if n < |args| && args[n].I32? then Some(args[n].i) else None
  }

  /** `Externals::invoke_index`: route by dispatch index to `multiply` or
      `state_add`; the arguments are read in order before any lookup. */
  function InvokeIndex(rt: Runtime, index: nat, args: seq<RuntimeValue>): (r: Invocation)
    ensures index != MultFuncIndex && index != StateAddFuncIndex ==> r == Panicked(UnknownFunctionIndex)
    ensures (index == MultFuncIndex || index == StateAddFuncIndex) && ArgsMatch(args, [I32Type, I32Type]) ==>
      r.Returned? || (index == StateAddFuncIndex && r == Panicked(MissingState(args[0].i)) && args[0].i !in rt.states)
    ensures r.Returned? && index == MultFuncIndex ==> r.runtime == rt && r.result.Some? && r.result.value.I32?
    ensures r.Returned? && index == StateAddFuncIndex ==> r.result.None? && r.runtime.states.Keys == rt.states.Keys
  {
    if index == MultFuncIndex then
      match (Arg(args, 0), Arg(args, 1))
      case (None, _) => Panicked(BadArgument(0))
      case (Some(_), None) => Panicked(BadArgument(1))
      case (Some(a), Some(b)) =>
        var c := Multiply(a, b);
        Returned(Some(I32(c)), rt)
    else if index == StateAddFuncIndex then
      match (Arg(args, 0), Arg(args, 1))
      case (None, _) => Panicked(BadArgument(0))
      case (Some(_), None) => Panicked(BadArgument(1))
      case (Some(handle), Some(a)) =>
        if handle in rt.states then
          Returned(None, Runtime(rt.states[handle := AddToState(rt.states[handle], a)]))
        else
          Panicked(MissingState(handle))
    else
      Panicked(UnknownFunctionIndex)
  }

  /** Dispatching index 0 multiplies and leaves the registry alone. */
  lemma LemmaDispatchMultiply(rt: Runtime, a: i32, b: i32)
    ensures InvokeIndex(rt, MultFuncIndex, [I32(a), I32(b)]) == Returned(Some(I32(Multiply(a, b))), rt)
  {
  }

  /** Dispatching index 1 on a registered handle adds the delta to that
      handle's state only, keeps the handle set, and returns no value. */
  lemma LemmaDispatchStateAdd(rt: Runtime, h: i32, d: i32)
    requires h in rt.states
    ensures var r := InvokeIndex(rt, StateAddFuncIndex, [I32(h), I32(d)]);
      && r.Returned? && r.result == None
      && r.runtime.states.Keys == rt.states.Keys
      && r.runtime.states[h] == AddToState(rt.states[h], d)
      && (forall k :: k in rt.states && k != h ==> r.runtime.states[k] == rt.states[k])
  {
  }

  /** Dispatching index 1 on an unregistered handle panics in the `unwrap`. */
  lemma LemmaDispatchStateAddMissing(rt: Runtime, h: i32, d: i32)
    requires h !in rt.states
    ensures InvokeIndex(rt, StateAddFuncIndex, [I32(h), I32(d)]) == Panicked(MissingState(h))
  {
  }

  /** The error `resolve_func` reports for a name it does not know. */
  datatype InterpreterError = FunctionError(message: string)

  function UnknownImportMessage(name: string): string {
    "host module doesn't export function with name " + name
  }

  /** A host function handed to the interpreter: its signature and dispatch index. */
  datatype FuncRef = HostFunc(signature: Signature, index: nat)

  const MultiplySignature: Signature := Signature([I32Type, I32Type], Some(I32Type))
  const StateAddSignature: Signature := Signature([I32Type, I32Type], None)

  predicate IsHostExport(name: string) {
    name == "multiply" || name == "state_add"
  }

  /** `RuntimeModuleImportResolver::resolve_func`. The requested signature is
      ignored: the host states the signature itself. */
  function ResolveFunc(fieldName: string, requested: Signature): (r: Result<FuncRef, InterpreterError>)
    ensures r.Success? <==> IsHostExport(fieldName)
    ensures r.Failure? ==> r.error == FunctionError(UnknownImportMessage(fieldName))
    ensures r.Success? ==> r.value.index in {MultFuncIndex, StateAddFuncIndex}
  {
    match fieldName
    case "multiply" => Success(HostFunc(MultiplySignature, MultFuncIndex))
    case "state_add" => Success(HostFunc(StateAddSignature, StateAddFuncIndex))
    case _ => Failure(FunctionError(UnknownImportMessage(fieldName)))
  }

  lemma LemmaResolveMultiply(requested: Signature)
    ensures ResolveFunc("multiply", requested) == Success(HostFunc(Signature([I32Type, I32Type], Some(I32Type)), 0))
  {
  }

  lemma LemmaResolveStateAdd(requested: Signature)
    ensures ResolveFunc("state_add", requested) == Success(HostFunc(Signature([I32Type, I32Type], None), 1))
  {
  }

  /** Resolution depends on the name only, and different names get different
      indices: an index is never reused for another function. */
  lemma LemmaResolveDeterministic(n1: string, s1: Signature, n2: string, s2: Signature)
    requires ResolveFunc(n1, s1).Success? && ResolveFunc(n2, s2).Success?
    ensures n1 == n2 <==> ResolveFunc(n1, s1) == ResolveFunc(n2, s2)
    ensures n1 != n2 ==> ResolveFunc(n1, s1).value.index != ResolveFunc(n2, s2).value.index
  {
  }

  /** The indices handed out are exactly 0 and 1: dense and contiguous. */
  lemma LemmaResolvedIndicesDense()
    ensures forall name, sig :: ResolveFunc(name, sig).Success? ==> ResolveFunc(name, sig).value.index < 2
    ensures ResolveFunc("multiply", MultiplySignature).value.index == 0
    ensures ResolveFunc("state_add", StateAddSignature).value.index == 1
  {
  }

  /** Resolver and dispatcher agree: calling a resolved function with
      arguments of its signature never hits the unknown-index or bad-argument
      panics, returns a value of its declared result type, and can only fail
      on a `state_add` handle that has no state. */
  lemma LemmaResolverDispatcherAgree(name: string, requested: Signature, rt: Runtime, args: seq<RuntimeValue>)
    requires ResolveFunc(name, requested).Success?
    requires ArgsMatch(args, ResolveFunc(name, requested).value.signature.params)
    ensures var f := ResolveFunc(name, requested).value;
      var r := InvokeIndex(rt, f.index, args);
      && (r.Returned? ==> ResultMatches(r.result, f.signature.result))
      && (r.Panicked? ==> name == "state_add" && r.reason == MissingState(args[0].i) && args[0].i !in rt.states)
  {
  }

  /** A module's import of the function `name` from the module `moduleName`, with
      the signature the importing module declares. */
  datatype Import = Import(moduleName: string, name: string, signature: Signature)

  /** The one module name the host registers its resolver under. */
  const HostNamespace: string := "env"

  /** Why instantiation rejects an import: no resolver is registered under
      its module name, the resolver does not know the function, or the
      function the resolver hands out has another signature than the one
      the import declares. */
  datatype LinkError =
    | UnknownModule(moduleName: string)
    | Unresolved(error: InterpreterError)
    | SignatureMismatch(name: string, declared: Signature, provided: Signature)

  /** Instantiation finds the host's resolver for the import and the resolver
      knows its name. */
  predicate Resolvable(imp: Import) {
    imp.moduleName == HostNamespace && IsHostExport(imp.name)
  }

  /** The host can satisfy the import: it is resolvable and the host's
      signature for that name is the declared one. */
  predicate Linkable(imp: Import) {
    Resolvable(imp) && ResolveFunc(imp.name, imp.signature).value.signature == imp.signature
  }

  /** The resolution step of instantiation for one import: find the resolver
      registered under its module, then ask it for the function. */
  function ResolveImport(imp: Import): (r: Result<FuncRef, LinkError>)
    ensures r.Success? <==> Resolvable(imp)
    ensures r.Success? ==> ResolveFunc(imp.name, imp.signature) == Success(r.value)
    ensures r == Failure(UnknownModule(imp.moduleName)) <==> imp.moduleName != HostNamespace
    ensures imp.moduleName == HostNamespace && !IsHostExport(imp.name) ==>
      r == Failure(Unresolved(FunctionError(UnknownImportMessage(imp.name))))
  {
    if imp.moduleName != HostNamespace then Failure(UnknownModule(imp.moduleName))
    else
      match ResolveFunc(imp.name, imp.signature)
      case Failure(e) => Failure(Unresolved(e))
      case Success(f) => Success(f)
  }

  /** One import on its own: resolve it, then compare the signatures. */
  function LinkImport(imp: Import): (r: Result<FuncRef, LinkError>)
    ensures r.Success? <==> Linkable(imp)
    ensures r.Success? ==> ResolveFunc(imp.name, imp.signature) == Success(r.value) && r.value.signature == imp.signature
    ensures r == Failure(UnknownModule(imp.moduleName)) <==> imp.moduleName != HostNamespace
    ensures imp.moduleName == HostNamespace && !IsHostExport(imp.name) ==>
      r == Failure(Unresolved(FunctionError(UnknownImportMessage(imp.name))))
  {
    match ResolveImport(imp)
    case Failure(e) => Failure(e)
    case Success(f) =>
      if f.signature != imp.signature then Failure(SignatureMismatch(imp.name, imp.signature, f.signature))
      else Success(f)
  }

  /** The position of the first import instantiation cannot resolve, or the
      number of imports when it resolves them all. */
  function FirstUnresolved(imports: seq<Import>): (k: nat)
    ensures k <= |imports|
    ensures forall j :: 0 <= j < k ==> Resolvable(imports[j])
    ensures k < |imports| ==> !Resolvable(imports[k])
  {
    if |imports| == 0 || !Resolvable(imports[0]) then 0
    else 1 + FirstUnresolved(imports[1..])
  }

  /** The position of the first import the host cannot satisfy, or the
      number of imports when it satisfies them all. */
  function FirstRejected(imports: seq<Import>): (k: nat)
    ensures k <= |imports|
    ensures forall j :: 0 <= j < k ==> Linkable(imports[j])
    ensures k < |imports| ==> !Linkable(imports[k])
  {
    if |imports| == 0 || !Linkable(imports[0]) then 0
    else 1 + FirstRejected(imports[1..])
  }

  /** The first pass of instantiation: resolve every import in order,
      stopping at the first one that cannot be resolved. */
  function ResolveAll(imports: seq<Import>): (r: Result<seq<FuncRef>, LinkError>)
    ensures r.Success? <==> forall i :: 0 <= i < |imports| ==> Resolvable(imports[i])
    ensures r.Success? ==> |r.value| == |imports|
    ensures r.Success? ==> forall i :: 0 <= i < |imports| ==>
      ResolveFunc(imports[i].name, imports[i].signature) == Success(r.value[i])
    ensures r.Failure? ==> FirstUnresolved(imports) < |imports|
    ensures r.Failure? ==> ResolveImport(imports[FirstUnresolved(imports)]) == Failure(r.error)
  {
    if |imports| == 0 then Success([])
    else
      match ResolveImport(imports[0])
      case Failure(e) => Failure(e)
      case Success(f) =>
        assert forall i :: 1 <= i < |imports| ==> imports[i] == imports[1..][i - 1];
        match ResolveAll(imports[1..])
        case Failure(e) => Failure(e)
        case Success(rest) => Success([f] + rest)
  }

  /** The position of the first resolved function whose signature is not the
      one its import declares, or the number of imports when none differs. */
  function FirstMismatch(imports: seq<Import>, table: seq<FuncRef>): (k: nat)
    requires |table| == |imports|
    ensures k <= |imports|
    ensures forall j :: 0 <= j < k ==> table[j].signature == imports[j].signature
    ensures k < |imports| ==> table[k].signature != imports[k].signature
  {
    if |imports| == 0 || table[0].signature != imports[0].signature then 0
    else
      assert forall j :: 1 <= j < |imports| ==> imports[j] == imports[1..][j - 1] && table[j] == table[1..][j - 1];
      1 + FirstMismatch(imports[1..], table[1..])
  }

  /** Linking a module's imports, as instantiation does with the resolver
      registered under `env`. Every import is resolved first, in order, and the
      first one that cannot be resolved fails the instantiation. Only when all
      are resolved are the signatures compared, and the first mismatch fails it. */
  function Link(imports: seq<Import>): (r: Result<seq<FuncRef>, LinkError>)
    ensures r.Success? <==> forall i :: 0 <= i < |imports| ==> Linkable(imports[i])
    ensures r.Success? ==> |r.value| == |imports|
    ensures r.Success? ==> forall i :: 0 <= i < |imports| ==>
      ResolveFunc(imports[i].name, imports[i].signature) == Success(r.value[i])
    ensures r.Success? ==> forall i :: 0 <= i < |imports| ==> r.value[i].signature == imports[i].signature
    ensures FirstUnresolved(imports) < |imports| ==>
      r.Failure? && ResolveImport(imports[FirstUnresolved(imports)]) == Failure(r.error)
    ensures FirstUnresolved(imports) == |imports| && r.Failure? ==>
      FirstRejected(imports) < |imports| && LinkImport(imports[FirstRejected(imports)]) == Failure(r.error)
  {
    match ResolveAll(imports)
    case Failure(e) => Failure(e)
    case Success(table) =>
      var k := FirstMismatch(imports, table);
      if k < |imports| then
        assert k == FirstRejected(imports);
        Failure(SignatureMismatch(imports[k].name, imports[k].signature, table[k].signature))
      else Success(table)
  }

  /** An import from any module other than `env` fails instantiation, whatever
      its name and signature. */
  lemma LemmaLinkRejectsOtherModule(moduleName: string, name: string, declared: Signature)
    requires moduleName != HostNamespace
    ensures Link([Import(moduleName, name, declared)]) == Failure(UnknownModule(moduleName))
  {
  }

  /** Importing `multiply` with any signature other than the host's fails
      instantiation, naming both signatures. */
  lemma LemmaLinkRejectsWrongSignature(declared: Signature)
    requires declared != MultiplySignature
    ensures Link([Import(HostNamespace, "multiply", declared)])
      == Failure(SignatureMismatch("multiply", declared, MultiplySignature))
  {
  }

  /** A resolution failure anywhere among the imports wins over a signature
      mismatch, even one that comes earlier in the list. */
  lemma LemmaLinkResolvesBeforeComparing(imports: seq<Import>, i: nat)
    requires i < |imports| && !Resolvable(imports[i])
    ensures Link(imports).Failure? && !Link(imports).error.SignatureMismatch?
  {
  }

  /** A mismatched `multiply` followed by an import from another module fails
      on the module, not on the signature. */
  lemma LemmaLinkUnknownModuleWins()
    ensures Link([Import(HostNamespace, "multiply", StateAddSignature), Import("other", "x", MultiplySignature)])
      == Failure(UnknownModule("other"))
  {
    var imports := [Import(HostNamespace, "multiply", StateAddSignature), Import("other", "x", MultiplySignature)];
    assert "other"[0] != HostNamespace[0];
    assert Resolvable(imports[0]) && !Resolvable(imports[1]);
    assert FirstUnresolved(imports) == 1;
  }
}
