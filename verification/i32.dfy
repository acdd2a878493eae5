/** Two's-complement 32-bit integers, as WebAssembly's `i32` and Rust's `i32`.
    Arithmetic wraps modulo 2^32, which is what the `i32.add`/`i32.mul`
    instructions do and what a Rust release build does. */
module I32 {

  const Modulus: int := 0x1_0000_0000
  const Min: int := -0x8000_0000
  const Max: int := 0x7fff_ffff

  predicate InRange(x: int) {
    Min <= x <= Max
  }

  /** The bounds are written as literals rather than as `Min` and `Max` so
      that membership is decided without unfolding any definition. */
  type i32 = x: int | -0x8000_0000 <= x <= 0x7fff_ffff

  /** The unique i32 congruent to `x` modulo 2^32. */
  function Wrap(x: int): (r: i32)
    ensures (r - x) % Modulus == 0
    ensures InRange(x) ==> r == x
  {
    var q := (x - Min) / Modulus;
    var m := (x - Min) % Modulus;
    assert x - Min == q * Modulus + m;
    assert r: m + Min - x == -q * Modulus;
    LemmaMultipleOfModulus(-q);
    m + Min
  }

  lemma LemmaMultipleOfModulus(k: int)
    ensures (k * Modulus) % Modulus == 0
  {
  }

  /** Two i32 values congruent modulo 2^32 are equal. */
  lemma LemmaCongruentInRangeEqual(x: int, y: int)
    requires InRange(x) && InRange(y) && (x - y) % Modulus == 0
    ensures x == y
  {
  }

  function WrappingAdd(a: i32, b: i32): i32 {
    Wrap(a + b)
  }

  function WrappingMul(a: i32, b: i32): i32 {
    Wrap(a * b)
  }

  /** Reinterpretation of an i32's bits as an unsigned 32-bit value (Rust's
      `as u32`, and how a wasm32 pointer or `usize` travels as an i32). */
  function ToU32(x: i32): (u: nat)
    ensures u < Modulus
    ensures (u - x) % Modulus == 0
    ensures x >= 0 ==> u == x
  {
    if x < 0 then x + Modulus else x
  }

  /** Reinterpretation of an unsigned 32-bit value as an i32 (Rust's `as i32`). */
  function FromU32(u: nat): (x: i32)
    requires u < Modulus
    ensures ToU32(x) == u
    ensures u <= Max ==> x == u
  {
    if u > Max then u - Modulus else u
  }

  /** The casts are inverse in the other direction too: an i32 taken `as u32`
      and back `as i32` is unchanged. With `FromU32`'s contract this makes the
      two casts a bijection between i32 and the values below 2^32. */
  lemma LemmaU32RoundTrip(x: i32)
    ensures FromU32(ToU32(x)) == x
  {
  }
}
