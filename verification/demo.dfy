/** The host's demonstration script (`play`): five export calls, each checked
    against the value the host expects. Memory is the guest's linear memory
    after instantiation; `at` is where the guest allocator places the string
    `return_str` builds. */
module Demo {
  import opened Wrappers
  import opened I32
  import opened Values
  import opened Memory
  import opened Utf8
  import opened CStrings
  import opened WasmStrings
  import opened Host
  import opened Guest

  /** The size of a `WasmString` (a Rust `String`) on a 64-bit host: the
      number of bytes `get_value::<WasmString>` hands to the decoder. */
  const WasmStringWidth: nat := 24

  const HelloWorld: seq<uint8> := AsBytes("hello world")

  /** Example 1: `add(3, 6)` returns 9. */
  lemma LemmaExampleAdd()
    ensures Guest.Add(3, 6) == 9
  {
  }

  /** Example 2: after writing "hello world" at offset 0, `count_str(0, 11)`
      returns 11. */
  lemma LemmaExampleCountStr(mem: seq<uint8>)
    requires |mem| >= |HelloWorld|
    ensures Set(mem, 0, HelloWorld).Success?
    ensures CountStr(Set(mem, 0, HelloWorld).value, 0, 11) == Success(11)
  {
    var written := Set(mem, 0, HelloWorld).value;
    LemmaAsciiIsValid(HelloWorld);
    assert written[0..11] == HelloWorld;
  }

  /** Example 3: the offset `return_str` hands out decodes, through
      `get_value::<WasmString>`, to exactly "hello from webassembly". */
  lemma LemmaExampleReturnStr(mem: seq<uint8>, at: nat)
    requires InBounds(mem, at, WasmStringWidth) && at < Modulus
    ensures var (ptr, written) := ReturnStr(mem, at);
      GetValue(written, ToU32(ptr), WasmStringWidth) == Success(WasmString(Exact(Hello)))
  {
    LemmaHelloIsPlainText();
    LemmaAsciiIsValid(Hello);
    var (ptr, written) := ReturnStr(mem, at);
    LemmaGetValueOfStoredString(written, at, WasmStringWidth, Hello);
  }

  /** Calling `return_str` twice, wherever the allocator puts the strings,
      decodes to the same string both times. */
  lemma LemmaReturnStrIdempotent(mem: seq<uint8>, at1: nat, at2: nat)
    requires InBounds(mem, at1, WasmStringWidth) && at1 < Modulus
    requires InBounds(mem, at2, WasmStringWidth) && at2 < Modulus
    ensures var (ptr1, mem1) := ReturnStr(mem, at1);
      var (ptr2, mem2) := ReturnStr(mem1, at2);
      GetValue(mem1, ToU32(ptr1), WasmStringWidth) == GetValue(mem2, ToU32(ptr2), WasmStringWidth)
  {
    var (ptr1, mem1) := ReturnStr(mem, at1);
    LemmaExampleReturnStr(mem, at1);
    LemmaExampleReturnStr(mem1, at2);
  }

  /** Example 4: `calc_host(3)` returns 18 and leaves the registry alone. */
  lemma LemmaExampleCalcHost(rt: Runtime, table: seq<FuncRef>)
    requires Link(Guest.Imports) == Success(table)
    ensures CalcHost(rt, table, 3) == Returned(Some(I32(18)), rt)
  {
  }

  /** Example 5: registering handle 1 with `State(0)` in a fresh registry and
      calling `host_state_add(1)` leaves `State(5)` at handle 1 and returns
      no value. */
  lemma LemmaExampleHostStateAdd(table: seq<FuncRef>)
    requires Link(Guest.Imports) == Success(table)
    ensures var rt := InsertState(Runtime(map[]), 1, State(0));
      HostStateAdd(rt, table, 1) == Returned(None, Runtime(map[1 := State(5)]))
  {
    var rt := InsertState(Runtime(map[]), 1, State(0));
    var r := HostStateAdd(rt, table, 1);
    assert r.runtime.states == map[1 := State(5)];
  }

  /** The five examples of the script, in the order they run. */
  datatype Example = Example1 | Example2 | Example3 | Example4 | Example5

  /** Why the script stopped, and in which example: an `expect`/`unwrap` on a
      memory access, a guest trap surfacing as a call error, a host panic, or
      an `assert_eq!` that did not hold. */
  datatype PlayFailure =
    | MemoryPanic(example: Example)
    | CallError(example: Example)
    | HostPanic(example: Example, reason: Panic)
    | AssertionFailed(example: Example)

  /** Example 2 of `play`: write "hello world" at offset 0 and count it. */
  function PlayCountStr(mem: seq<uint8>): (r: Result<seq<uint8>, PlayFailure>)
    ensures r.Success? <==> |mem| >= |HelloWorld|
    ensures r.Success? ==> |r.value| == |mem|
  {
    match Set(mem, 0, HelloWorld)
    case Failure(_) => Failure(MemoryPanic(Example2))
    case Success(written) =>
      LemmaExampleCountStr(mem);
      var count := CountStr(written, 0, 11);
      assert count == Success(11);
      if count.Failure? then Failure(CallError(Example2))
      else if count.value != 11 then Failure(AssertionFailed(Example2))
      else Success(written)
  }

  /** Example 3 of `play`: read the string `return_str` hands back. The guest's
      allocation traps when the string does not fit in memory. */
  function PlayReturnStr(mem: seq<uint8>, at: nat): (r: Result<seq<uint8>, PlayFailure>)
    requires at < Modulus
    ensures r.Success? <==> InBounds(mem, at, WasmStringWidth)
  {
    if !InBounds(mem, at, |Hello| + 1) then Failure(CallError(Example3))
    else
      var returned := ReturnStr(mem, at);
      var read := GetValue(returned.1, ToU32(returned.0), WasmStringWidth);
      if read.Failure? then Failure(MemoryPanic(Example3))
      else
        LemmaExampleReturnStr(mem, at);
        if read.value != WasmString(Exact(Hello)) then Failure(AssertionFailed(Example3))
        else Success(returned.1)
  }

  /** Examples 4 and 5 of `play`, which go through the host's externals,
      starting from the empty registry; the result is the final runtime. */
  function PlayHost(table: seq<FuncRef>): (r: Result<Runtime, PlayFailure>)
    requires Link(Guest.Imports) == Success(table)
    ensures r.Success? && r.value.states == map[1 := State(5)]
  {
    var initial := Runtime(map[]);
    // Example 4
    LemmaExampleCalcHost(initial, table);
    match CalcHost(initial, table, 3)
    case Panicked(p) => Failure(HostPanic(Example4, p))
    case Returned(res4, after4) =>
      if res4 != Some(I32(18)) then Failure(AssertionFailed(Example4))
      else
        // Example 5
        var registered := InsertState(after4, 1, State(0));
        LemmaExampleHostStateAdd(table);
        match HostStateAdd(registered, table, 1)
        case Panicked(p) => Failure(HostPanic(Example5, p))
        case Returned(res5, after5) =>
          if 1 !in after5.states || after5.states[1] != State(5) then Failure(AssertionFailed(Example5))
          else if res5 != None then Failure(AssertionFailed(Example5))
          else Success(after5)
  }

  /** `play`: run the five examples in order against the guest's memory and a
      fresh host runtime, returning the final runtime. Every `assert_eq!` holds
      whenever the memory is large enough for the two strings. */
  function Play(mem: seq<uint8>, at: nat): (r: Result<Runtime, PlayFailure>)
    requires at < Modulus
    ensures r.Success? <==> |mem| >= |HelloWorld| && InBounds(mem, at, WasmStringWidth)
    ensures r.Success? ==> r.value.states == map[1 := State(5)]
  {
    LemmaImportsLink();
    // Example 1
    if Guest.Add(3, 6) != 9 then Failure(AssertionFailed(Example1))
    else
      match PlayCountStr(mem)
      case Failure(e) => Failure(e)
      case Success(mem) =>
        match PlayReturnStr(mem, at)
        case Failure(e) => Failure(e)
        case Success(_) => PlayHost(Link(Guest.Imports).value)
  }
}
