/** The interpreter's value vocabulary at the host/guest boundary: value
    types, runtime values and function signatures, as wasmi names them. */
module Values {
  import opened Wrappers
  import opened I32

  datatype ValueType = I32Type | I64Type | F32Type | F64Type

  /** A typed value crossing the boundary; floats are carried as their bits. */
  datatype RuntimeValue = I32(i: i32) | I64(l: int) | F32(f: bv32) | F64(d: bv64)

  function TypeOf(v: RuntimeValue): ValueType {
    match v
    case I32(_) => I32Type
    case I64(_) => I64Type
    case F32(_) => F32Type
    case F64(_) => F64Type
  }

  /** Ordered parameter types plus an optional result type. */
  datatype Signature = Signature(params: seq<ValueType>, result: Option<ValueType>)

  /** The interpreter only calls a function with arguments of its parameter
      types, positionally. */
  predicate ArgsMatch(args: seq<RuntimeValue>, params: seq<ValueType>) {
    |args| == |params| && forall i :: 0 <= i < |args| ==> TypeOf(args[i]) == params[i]
  }

  /** A function's (optional) return value agrees with its declared result type. */
  predicate ResultMatches(ret: Option<RuntimeValue>, result: Option<ValueType>) {
    match ret
    case None => result.None?
    case Some(v) => result == Some(TypeOf(v))
  }
}
