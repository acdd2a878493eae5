/** The guest module: the host functions it imports and the five functions it
    exports. Guest memory is a byte sequence and guest pointers are offsets
    into it; a call into the host goes through the function the import was
    linked to, and so through the host dispatcher. */
module Guest {
  import opened Wrappers
  import opened I32
  import opened Values
  import opened Memory
  import opened Utf8
  import opened CStrings
  import opened Host

  /** The guest's `extern "C"` block, in declaration order:
      `multiply(a: i32, b: i32) -> i32` and `state_add(state_ptr: i32, n: i32)`.
      A block with no `wasm_import_module` attribute imports from `env`. */
  const Imports: seq<Import> := [
    Import(HostNamespace, "multiply", Signature([I32Type, I32Type], Some(I32Type))),
    Import(HostNamespace, "state_add", Signature([I32Type, I32Type], None))
  ]
  const MultiplyImport: nat := 0
  const StateAddImport: nat := 1

  /** The guest links against the host, and what the resolver hands out has
      exactly the signature each import declares. */
  lemma LemmaImportsLink()
    ensures Link(Imports) == Success([HostFunc(MultiplySignature, MultFuncIndex), HostFunc(StateAddSignature, StateAddFuncIndex)])
    ensures forall i :: 0 <= i < |Imports| ==> Link(Imports).value[i].signature == Imports[i].signature
  {
    assert IsHostExport(Imports[0].name) && IsHostExport(Imports[1].name);
    assert Linkable(Imports[0]) && Linkable(Imports[1]);
    var table := Link(Imports).value;
    assert ResolveFunc(Imports[0].name, Imports[0].signature) == Success(table[0]);
    assert ResolveFunc(Imports[1].name, Imports[1].signature) == Success(table[1]);
    assert table == [table[0], table[1]];
  }

  /** `add`: `a + b`, wrapping like the `i32.add` instruction. */
  function Add(a: i32, b: i32): (r: i32)
    ensures (r - (a + b)) % Modulus == 0
    ensures InRange(a + b) ==> r == a + b
  {
    WrappingAdd(a, b)
  }

  /** A guest panic, which aborts the call as a trap. */
  datatype Trap = Utf8Error

  /** `count_str(ptr, len)`: view `len` bytes at `ptr` as a `str` (`unwrap` of
      `str::from_utf8`) and return its length in bytes. Pointer and length
      travel as i32 bit patterns of wasm32 `usize` values. */
  function CountStr(mem: seq<uint8>, ptr: i32, len: i32): (r: Result<i32, Trap>)
    requires InBounds(mem, ToU32(ptr), ToU32(len))
    ensures r.Success? ==> r.value == len
    ensures r.Success? ==> ToU32(r.value) == |mem[ToU32(ptr)..ToU32(ptr) + ToU32(len)]|
  {
    var slice := mem[ToU32(ptr)..ToU32(ptr) + ToU32(len)];
    if ValidUtf8(slice) then Success(FromU32(|slice|)) else Failure(Utf8Error)
  }

  /** `count_str` traps exactly when the viewed bytes are not valid UTF-8. */
  lemma LemmaCountStrTrapsOnInvalid(mem: seq<uint8>, ptr: i32, len: i32)
    requires InBounds(mem, ToU32(ptr), ToU32(len))
    ensures CountStr(mem, ptr, len) == Failure(Utf8Error) <==> !ValidUtf8(mem[ToU32(ptr)..ToU32(ptr) + ToU32(len)])
  {
  }

  /** The bytes of the literal `"hello from webassembly"`. */
  const Hello: seq<uint8> := AsBytes("hello from webassembly")

  /** The literal is 22 ASCII bytes with no NUL among them. */
  lemma LemmaHelloIsPlainText()
    ensures |Hello| == 22 && IsAscii(Hello) && NoNul(Hello)
  {
    var text := "hello from webassembly";
    assert forall i :: 0 <= i < |text| ==> text[i] != '\0';
  }

  /** `CString::new(text).unwrap().into_raw()` for a text with no NUL (the
      `unwrap` is the `.value` below): the string and its terminator land at
      `at`, where the guest allocator chose to put them. */
  function PlaceCString(mem: seq<uint8>, at: nat, text: seq<uint8>): (r: (i32, seq<uint8>))
    requires NoNul(text) && InBounds(mem, at, |text| + 1) && at < Modulus
    ensures ToU32(r.0) == at
    ensures |r.1| == |mem|
    ensures r.1[at..at + |text|] == text && r.1[at + |text|] == 0
    ensures forall i :: 0 <= i < |mem| && !(at <= i <= at + |text|) ==> r.1[i] == mem[i]
  {
    var cstring := CStringNew(text).value;
    var written := Set(mem, at, cstring).value;
    assert written[at..at + |text|] == written[at..at + |cstring|][..|text|];
    (FromU32(at), written)
  }

  /** `return_str`: hand out a freshly built C string holding the literal;
      the `unwrap` of `CString::new` cannot fail because the literal has no
      NUL. */
  function ReturnStr(mem: seq<uint8>, at: nat): (r: (i32, seq<uint8>))
    requires InBounds(mem, at, |Hello| + 1) && at < Modulus
    ensures ToU32(r.0) == at
    ensures |r.1| == |mem|
    ensures r.1[at..at + |Hello|] == Hello && r.1[at + |Hello|] == 0
    ensures forall i :: 0 <= i < |mem| && !(at <= i <= at + |Hello|) ==> r.1[i] == mem[i]
  {
    LemmaHelloIsPlainText();
    PlaceCString(mem, at, Hello)
  }

  /** If `b ≡ a + a` and `c ≡ a * b` modulo 2^32 then `c ≡ 2·a²`. */
  lemma LemmaDoubleSquareCongruence(a: int, b: int, c: int)
    requires (b - (a + a)) % Modulus == 0
    requires (c - a * b) % Modulus == 0
    ensures (c - 2 * a * a) % Modulus == 0
  {
    var q1 := (c - a * b) / Modulus;
    var q2 := (b - (a + a)) / Modulus;
    assert c - a * b == q1 * Modulus;
    assert b - (a + a) == q2 * Modulus;
    assert a * (b - (a + a)) == (a * q2) * Modulus;
    assert c - 2 * a * a == (q1 + a * q2) * Modulus;
    LemmaMultipleOfModulus(q1 + a * q2);
  }

  /** `calc_host(a)`: compute `b = a + a` and return the host's `multiply(a, b)`. */
  function CalcHost(rt: Runtime, table: seq<FuncRef>, a: i32): (r: Invocation)
    requires Link(Imports) == Success(table)
    ensures r.Returned? && r.runtime == rt && r.result.Some? && r.result.value.I32?
    ensures (r.result.value.i - 2 * a * a) % Modulus == 0
    ensures InRange(2 * a * a) ==> r.result == Some(I32(2 * a * a))
  {
    LemmaImportsLink();
    var b := WrappingAdd(a, a);
    LemmaDispatchMultiply(rt, a, b);
    var r := InvokeIndex(rt, table[MultiplyImport].index, [I32(a), I32(b)]);
    var c := r.result.value.i;
    LemmaDoubleSquareCongruence(a, b, c);
    if InRange(2 * a * a) then LemmaCongruentInRangeEqual(c, 2 * a * a); r else r
  }

  /** `host_state_add(h)`: call the host's `state_add(h, 5)` and return nothing. */
  function HostStateAdd(rt: Runtime, table: seq<FuncRef>, h: i32): (r: Invocation)
    requires Link(Imports) == Success(table)
    ensures r.Panicked? <==> h !in rt.states
    ensures r.Panicked? ==> r.reason == MissingState(h)
    ensures r.Returned? ==> r.result.None? && r.runtime.states.Keys == rt.states.Keys
    ensures r.Returned? ==> r.runtime.states[h] == AddToState(rt.states[h], 5)
    ensures r.Returned? ==> forall k :: k in rt.states && k != h ==> r.runtime.states[k] == rt.states[k]
  {
    LemmaImportsLink();
    InvokeIndex(rt, table[StateAddImport].index, [I32(h), I32(5)])
  }
}
