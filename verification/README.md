# WebAssembly host/guest boundary in Dafny

This project models the boundary between a Rust host that embeds the wasmi
interpreter and the WebAssembly guest it runs. The host side:

- Holds a registry of `State` values keyed by `i32` handles.
- Offers two host functions, `multiply` and `state_add`, under the dispatch indices 0 and 1.
- Routes guest calls to those functions by index (`Externals::invoke_index`).
- Binds the guest's imports by name (`ModuleImportResolver::resolve_func`).
- Decodes null-terminated strings out of guest memory (`WasmString::from_little_endian`).

The guest exports five functions: `add`, `count_str`, `return_str`, `calc_host` and `host_state_add`.
The host's `play` script calls each export once and checks the result.

Modules, in dependency order:

- `Wrappers`: `Option` and `Result`.
- `I32`: two's-complement 32-bit integers. Arithmetic wraps modulo 2^32. `ToU32`/`FromU32` are the `as u32`/`as i32` casts.
- `Values`: wasmi's value types, runtime values and signatures.
- `Memory`: linear memory as a byte sequence, with bounds-checked `Set` and `Get`.
- `Utf8`: well-formed UTF-8 as in table 3-7 of the Unicode Standard, plus the lossy conversion.
- `CStrings`: `memchr`, `CStr::from_bytes_with_nul` and `CString::new`.
- `WasmStrings`: the `WasmString` codec and `get_value::<WasmString>`.
- `Host`: the state registry, `State::add`, `Runtime::multiply`, `invoke_index`, `resolve_func` and linking of a module's imports.
- `Guest`: the guest's imports and its five exports. A call into the host goes through the linked import table and `InvokeIndex`.
- `Demo`: the five examples of `play` and the script as a whole.

How the model treats the code:

- A host panic is an outcome, not a precondition. `InvokeIndex` returns `Panicked(reason)` in three cases:
  - an unknown index;
  - an argument that is missing or is not an i32;
  - a handle with no registered state.
- A guest `unwrap` that can fail is an outcome too: `count_str` returns `Failure(Utf8Error)` on bytes that are not UTF-8.
- An `unwrap` that cannot fail is written as `.value`, and its precondition is proved. This covers `CString::new` on the literal and `CStr::from_bytes_with_nul` in the decoder.

Two behaviours of the code are worth noting:

- The resolver ignores the signature the module requests. It always returns the host's own signature for a known name and never fails on a mismatch.
- `count_str` does not return a byte count for invalid UTF-8. It unwraps `str::from_utf8`, so it traps.

## Model

| member | source | states |
|---|---|---|
| I32.ToU32 | 2019-01-31-wasm-rust-host/host/src/main.rs:161 | reading an i32 offset `as u32` gives a value below 2^32, congruent to it, and equal to it when it is not negative |
| I32.FromU32 | 2019-01-31-wasm-rust-host/app/src/lib.rs:38-50 | a wasm32 `usize` (`count_str`'s result, `return_str`'s pointer) returned as an i32 is undone by `ToU32`, and keeps values up to `i32::MAX` |
| I32.LemmaU32RoundTrip | 2019-01-31-wasm-rust-host/host/src/main.rs:161 | a general fact about the casts: an i32 taken `as u32` and back `as i32` is unchanged. Together with `FromU32`'s contract, the two casts are inverse bijections between i32 and the values below 2^32 |
| Memory.Set | 2019-01-31-wasm-rust-host/host/src/main.rs:136-138 | a memory write succeeds exactly when the region fits. On success the length is kept, the region holds the bytes and every other byte is unchanged; on failure it reports the offset, length and size |
| Memory.Get | 2019-01-31-wasm-rust-host/host/src/main.rs:161 | a memory read succeeds exactly when the region fits, and returns the bytes at offset+i |
| Memory.LemmaGetAfterSet | 2019-01-31-wasm-rust-host/host/src/main.rs:136-140 | reading back a region just written gives the bytes written |
| Memory.LemmaGetAfterSetDisjoint | 2019-01-31-wasm-rust-host/host/src/main.rs:136-138 | a write leaves a read of any region it does not overlap unchanged |
| Utf8.LemmaAsciiIsValid | 2019-01-31-wasm-rust-host/app/src/lib.rs:35 | every ASCII byte string is accepted by `str::from_utf8` |
| Utf8.FromUtf8Lossy | 2019-01-31-wasm-rust-host/host/src/utils.rs:59 | `to_string_lossy` keeps the bytes unchanged exactly when they are valid UTF-8; otherwise the result is marked as containing replacements |
| Utf8.AsBytes | 2019-01-31-wasm-rust-host/host/src/main.rs:137 | `as_bytes` of ASCII text gives one byte per character, equal to its code |
| CStrings.Memchr | 2019-01-31-wasm-rust-host/host/src/utils.rs:58 | finds no position exactly when there is no zero byte. A found position holds a zero and every byte before it is non-zero |
| CStrings.LemmaMemchrIsFirst | 2019-01-31-wasm-rust-host/host/src/utils.rs:58 | for any zero byte, the first zero found is at or before it |
| CStrings.CStrFromBytesWithNul | 2019-01-31-wasm-rust-host/host/src/utils.rs:58 | `CStr::from_bytes_with_nul` accepts exactly the byte strings whose only NUL is their last byte, and returns the bytes before it. It reports "not NUL-terminated" exactly when there is no NUL |
| CStrings.CStringNew | 2019-01-31-wasm-rust-host/app/src/lib.rs:49 | `CString::new` succeeds exactly when there is no NUL, and then appends one. On failure it reports the bytes and the position of a NUL |
| CStrings.LemmaCStringRoundTrip | 2019-01-31-wasm-rust-host/app/src/lib.rs:49 | a string built by `CString::new` is read back by `CStr::from_bytes_with_nul` with the same contents |
| WasmStrings.TakeWhileNonZero | 2019-01-31-wasm-rust-host/host/src/utils.rs:54 | the kept bytes are a prefix of the buffer with no zero, ending at a zero or at the end of the buffer |
| WasmStrings.LemmaTakeWhileUnique | 2019-01-31-wasm-rust-host/host/src/utils.rs:54 | that prefix is unique: any zero-free prefix stopped by a zero or by the end is the one `take_while` keeps |
| WasmStrings.LemmaTakeWhileIsMemchr | 2019-01-31-wasm-rust-host/host/src/utils.rs:54 | `take_while` keeps the bytes before the first zero, or the whole buffer when there is none |
| WasmStrings.FromLittleEndian | 2019-01-31-wasm-rust-host/host/src/utils.rs:50-61 | decoding never fails. The decoded bytes are the zero-free prefix ending at the first zero or at the end of the buffer. The text is exact iff those bytes are valid UTF-8 |
| WasmStrings.LemmaChunkIsCString | 2019-01-31-wasm-rust-host/host/src/utils.rs:54-59 | the chunk with its pushed NUL has exactly one NUL, its last byte, so the `unwrap` of `from_bytes_with_nul` never panics and returns the kept bytes |
| WasmStrings.LemmaDecodedLength | 2019-01-31-wasm-rust-host/host/src/utils.rs:53-56 | the decoded length is the position of the first zero, or the buffer length |
| WasmStrings.LemmaDecodeRoundTrip | 2019-01-31-wasm-rust-host/host/src/utils.rs:50-61 | a zero-free string followed by a NUL and anything else decodes to its own bytes, and to exactly itself when it is valid UTF-8 |
| WasmStrings.LemmaDecodeIgnoresSuffix | 2019-01-31-wasm-rust-host/host/src/utils.rs:53-54 | two buffers that agree up to and including the first zero decode to the same value |
| WasmStrings.IntoLittleEndian | 2019-01-31-wasm-rust-host/host/src/utils.rs:63-65 | encoding a string always panics as unimplemented and produces no buffer |
| WasmStrings.GetValue | 2019-01-31-wasm-rust-host/host/src/main.rs:161 | `get_value::<WasmString>` succeeds exactly when the window fits in memory. The decoded bytes are those at the offset before the first zero in the window |
| WasmStrings.LemmaGetValueOfStoredString | 2019-01-31-wasm-rust-host/host/src/main.rs:161-166 | a zero-free, valid UTF-8 string stored with its NUL inside the window reads back as exactly that string |
| Host.AddToState | 2019-01-31-wasm-rust-host/host/src/main.rs:15-17 | `State::add` adds the delta modulo 2^32, exactly when the sum is in range |
| Host.Multiply | 2019-01-31-wasm-rust-host/host/src/main.rs:25-27 | `multiply` is the product modulo 2^32, exactly when the product is in range |
| Host.InsertState | 2019-01-31-wasm-rust-host/host/src/main.rs:192 | `insert` adds the handle to the key set and maps it to the new state. Every other entry is unchanged |
| Host.Arg | 2019-01-31-wasm-rust-host/host/src/main.rs:45-46 | `nth::<i32>(n)` yields a value exactly when argument n exists and is an i32, and then yields that i32 |
| Host.InvokeIndex | 2019-01-31-wasm-rust-host/host/src/main.rs:37-59 | any index other than 0 and 1 panics. With two i32 arguments a known index returns, unless it is state_add on an unregistered handle, which panics with that handle. `multiply` returns an i32 and changes nothing. `state_add` returns nothing and keeps the handle set |
| Host.LemmaDispatchMultiply | 2019-01-31-wasm-rust-host/host/src/main.rs:44-49 | index 0 returns `multiply(a, b)` and leaves the runtime unchanged |
| Host.LemmaDispatchStateAdd | 2019-01-31-wasm-rust-host/host/src/main.rs:51-56 | index 1 on a registered handle adds the delta to that handle's state only, keeps the handles, and returns nothing |
| Host.LemmaDispatchStateAddMissing | 2019-01-31-wasm-rust-host/host/src/main.rs:54 | index 1 on an unregistered handle panics in the registry `unwrap` |
| Host.ResolveFunc | 2019-01-31-wasm-rust-host/host/src/main.rs:67-89 | resolution succeeds exactly for "multiply" and "state_add", and hands out index 0 or 1. Any other name fails with "host module doesn't export function with name" followed by the name |
| Host.LemmaResolveMultiply | 2019-01-31-wasm-rust-host/host/src/main.rs:73-76 | "multiply" resolves to (i32, i32) -> i32 at index 0, whatever signature is requested |
| Host.LemmaResolveStateAdd | 2019-01-31-wasm-rust-host/host/src/main.rs:77-80 | "state_add" resolves to (i32, i32) -> () at index 1, whatever signature is requested |
| Host.LemmaResolveDeterministic | 2019-01-31-wasm-rust-host/host/src/main.rs:72-87 | two successful resolutions are equal exactly when the names are equal, and different names get different indices |
| Host.LemmaResolvedIndicesDense | 2019-01-31-wasm-rust-host/host/src/main.rs:30-31 | every handed-out index is below 2: "multiply" gets 0 and "state_add" gets 1 |
| Host.LemmaResolverDispatcherAgree | 2019-01-31-wasm-rust-host/host/src/main.rs:33-89 | calling a resolved function with arguments of its signature returns a value of its declared result type. The only possible panic is a state_add handle with no state |
| Host.ResolveImport | 2019-01-31-wasm-rust-host/host/src/utils.rs:38-41 | resolving one import succeeds exactly when its module is `env` and its name is known, and then gives the resolver's answer. Any other module fails as unknown, and an unknown name in `env` fails with the resolver's message |
| Host.LinkImport | 2019-01-31-wasm-rust-host/host/src/utils.rs:38-41 | one import on its own links exactly when it resolves and the host's signature for it is the declared one. It then gets the resolver's answer. Any other module fails as unknown, and an unknown name in `env` fails with the resolver's message |
| Host.FirstUnresolved | 2019-01-31-wasm-rust-host/host/src/utils.rs:38-41 | finds the position of the first import that cannot be resolved, or the count when all of them resolve |
| Host.FirstRejected | 2019-01-31-wasm-rust-host/host/src/utils.rs:38-41 | finds the position of the first import the host cannot satisfy, or the count when it satisfies all of them |
| Host.ResolveAll | 2019-01-31-wasm-rust-host/host/src/utils.rs:38-41 | the resolution pass succeeds exactly when every import resolves, giving one resolver answer per import. Otherwise it fails with the error of the first import that does not resolve |
| Host.FirstMismatch | 2019-01-31-wasm-rust-host/host/src/utils.rs:38-41 | finds the position of the first resolved function whose signature differs from its import's, or the count when none differs |
| Host.Link | 2019-01-31-wasm-rust-host/host/src/utils.rs:38-41 | instantiation links exactly when every import can be satisfied. The table then has one entry per import, each the resolver's answer with the declared signature. If any import does not resolve, it fails with the resolution error of the first such import. Only when all resolve does it fail on the first signature mismatch |
| Host.LemmaLinkRejectsOtherModule | 2019-01-31-wasm-rust-host/host/src/utils.rs:39 | an import from any module other than `env` fails instantiation, whatever its name and signature |
| Host.LemmaLinkRejectsWrongSignature | 2019-01-31-wasm-rust-host/host/src/main.rs:73-76 | importing `multiply` with any signature but (i32, i32) -> i32 fails instantiation, naming both signatures |
| Host.LemmaLinkResolvesBeforeComparing | 2019-01-31-wasm-rust-host/host/src/utils.rs:41 | when any import does not resolve, linking fails with a resolution error, never with a signature mismatch |
| Host.LemmaLinkUnknownModuleWins | 2019-01-31-wasm-rust-host/host/src/utils.rs:41 | a mismatched `multiply` import followed by an import from another module fails on the unknown module |
| Guest.LemmaImportsLink | 2019-01-31-wasm-rust-host/app/src/lib.rs:9-15 | the guest's two imports link to indices 0 and 1, with exactly the signatures the guest declares |
| Guest.Add | 2019-01-31-wasm-rust-host/app/src/lib.rs:19-21 | `add` is the sum modulo 2^32, exactly when the sum is in range |
| Guest.CountStr | 2019-01-31-wasm-rust-host/app/src/lib.rs:26-39 | when `count_str` returns, it returns `len`, which is the byte length of the viewed slice |
| Guest.LemmaCountStrTrapsOnInvalid | 2019-01-31-wasm-rust-host/app/src/lib.rs:35-38 | `count_str` traps exactly when the viewed bytes are not valid UTF-8 |
| Guest.LemmaHelloIsPlainText | 2019-01-31-wasm-rust-host/app/src/lib.rs:48 | the literal is 22 ASCII bytes with no NUL |
| Guest.PlaceCString | 2019-01-31-wasm-rust-host/app/src/lib.rs:49-50 | a NUL-free text placed as a C string returns the pointer to its first byte. The text and a NUL sit there, the memory length is kept, and no other byte changes (allocator and stack writes are not modelled) |
| Guest.ReturnStr | 2019-01-31-wasm-rust-host/app/src/lib.rs:45-51 | `return_str` returns a pointer to "hello from webassembly" followed by a NUL. It changes no other byte (allocator and stack writes are not modelled) |
| Guest.LemmaDoubleSquareCongruence | 2019-01-31-wasm-rust-host/app/src/lib.rs:55-58 | wrapping `a + a`, then the wrapped product with `a`, is congruent to 2·a² modulo 2^32 |
| Guest.CalcHost | 2019-01-31-wasm-rust-host/app/src/lib.rs:55-58 | `calc_host(a)` always returns an i32 congruent to 2·a², equal to it when in range, and leaves the host runtime unchanged |
| Guest.HostStateAdd | 2019-01-31-wasm-rust-host/app/src/lib.rs:62-66 | `host_state_add(h)` panics exactly when h has no state. Otherwise it adds 5 to h's state alone, keeps the handles and returns nothing |
| Demo.LemmaExampleAdd | 2019-01-31-wasm-rust-host/host/src/main.rs:119-120 | `add(3, 6)` is 9 |
| Demo.LemmaExampleCountStr | 2019-01-31-wasm-rust-host/host/src/main.rs:131-141 | after writing "hello world" at offset 0, `count_str(0, 11)` returns 11 |
| Demo.LemmaExampleReturnStr | 2019-01-31-wasm-rust-host/host/src/main.rs:153-166 | the pointer `return_str` hands out decodes to exactly "hello from webassembly" |
| Demo.LemmaReturnStrIdempotent | 2019-01-31-wasm-rust-host/app/src/lib.rs:45-51 | two calls of `return_str`, wherever the strings are placed, decode to the same string |
| Demo.LemmaExampleCalcHost | 2019-01-31-wasm-rust-host/host/src/main.rs:176-177 | `calc_host(3)` returns 18 and leaves the runtime unchanged |
| Demo.LemmaExampleHostStateAdd | 2019-01-31-wasm-rust-host/host/src/main.rs:191-200 | after `insert(1, State(0))`, `host_state_add(1)` leaves exactly `{1: State(5)}` and returns nothing |
| Demo.PlayCountStr | 2019-01-31-wasm-rust-host/host/src/main.rs:136-141 | Example 2 passes exactly when memory holds the 11 bytes, and keeps the memory length |
| Demo.PlayReturnStr | 2019-01-31-wasm-rust-host/host/src/main.rs:153-166 | Example 3 passes exactly when the 24-byte read window at the string fits in memory |
| Demo.PlayHost | 2019-01-31-wasm-rust-host/host/src/main.rs:174-200 | Examples 4 and 5 always pass, leaving exactly `{1: State(5)}` in the registry |
| Demo.Play | 2019-01-31-wasm-rust-host/host/src/main.rs:98-204 | the script's checks all hold exactly when memory is large enough for both strings, and the final registry is `{1: State(5)}` |

## Left out

- Loading the module: opening and reading the file, parsing it, and `assert_no_start`. This is file I/O and wasmi internals; linking is modelled only as the resolution of function imports (`Host.Link`).
- `main`: argument handling, the usage error, and the `utils::Error` type with its `Display`/`From`/`HostError` implementations. These are command-line plumbing.
- `call` and every `println!`: output only. An export call is modelled as a direct call of the guest function.
- Host.Link: the namespace and signature failures are abstract values (`UnknownModule`, `SignatureMismatch`). wasmi's own message texts for them are not part of this model. Imports of memories, tables and globals are not modelled; the guest imports only functions.
- wasmi's export lookup by name in `invoke_export`, and its argument type checking. `Demo` calls the modelled exports directly.
- The `memory` export lookup in `play`, and memory growth. Memory is a fixed byte sequence given as a parameter.
- WasmStrings.GetValue: the window size is a parameter. `Demo` uses 24, the size of a Rust `String` on a 64-bit host; wasmi's `size_of` is not part of this model.
- The guest allocator. Where `return_str`'s string lands is a parameter `at`, and an allocation that does not fit is modelled as a trap. `into_raw`'s transfer of ownership (the string is never freed) is not modelled.
- Guest.PlaceCString: leaving every other byte unchanged holds only because allocation is the parameter `at`. The guest allocator's block headers and the shadow stack that carries `CString::new`'s `Result` also live in linear memory, and their writes are not modelled.
- Guest.ReturnStr: the same as `Guest.PlaceCString`. The allocator's and the shadow stack's own writes to memory are not modelled.
- `count_str` on a null pointer: Example 2 passes pointer 0 to `slice::from_raw_parts`, which Rust leaves undefined. The model reads memory from offset 0.
- Utf8.FromUtf8Lossy: does not compute the U+FFFD replacement text for invalid input. It only marks the result as replaced and keeps the raw bytes.
- `Values`: the `I64`, `F32` and `F64` runtime values complete wasmi's value type. No code path here produces them.
- app/src/small.rs is not part of this model.
- Host.AddToState: wraps modulo 2^32 like a release build. A debug build would panic on overflow instead.
- Host.Multiply: wraps modulo 2^32 like a release build. A debug build would panic on overflow instead.
- Guest.Add: wraps modulo 2^32 like `i32.add`. Overflow checks in a debug build of the guest are not modelled.
- Guest.CalcHost: wraps `a + a` and the product modulo 2^32. Debug-build overflow panics are not modelled.
