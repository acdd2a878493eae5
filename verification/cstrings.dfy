/** The pieces of Rust's `std::ffi` the boundary relies on: finding the first
    NUL byte, `CStr::from_bytes_with_nul` and `CString::new`. The contents of a `CStr` are
    kept without the terminating NUL; a `CString`'s buffer includes it. */
module CStrings {
  import opened Wrappers
  import opened Memory

  predicate NoNul(b: seq<uint8>) {
    forall i :: 0 <= i < |b| ==> b[i] != 0
  }

  /** The position of the first zero byte, if there is one. */
  function Memchr(b: seq<uint8>): (r: Option<nat>)
    ensures r.None? <==> NoNul(b)
    ensures r.Some? ==> r.value < |b| && b[r.value] == 0 && NoNul(b[..r.value])
  {
    if |b| == 0 then None
    else if b[0] == 0 then Some(0)
    else
      match Memchr(b[1..])
      case None => None
      case Some(k) =>
        assert b[..k + 1] == [b[0]] + b[1..][..k];
        Some(k + 1)
  }

  /** `Memchr` finds the first zero, so any position before it holds no zero. */
  lemma {:induction false} LemmaMemchrIsFirst(b: seq<uint8>, k: nat)
    requires k < |b| && b[k] == 0
    ensures Memchr(b).Some? && Memchr(b).value <= k
  {
    if b[0] != 0 {
      assert b[1..][k - 1] == b[k];
      LemmaMemchrIsFirst(b[1..], k - 1);
    }
  }

  datatype FromBytesWithNulError = InteriorNul(position: nat) | NotNulTerminated

  /** `CStr::from_bytes_with_nul`: accepts exactly the byte strings whose only
      NUL is their last byte. */
  function CStrFromBytesWithNul(bytes: seq<uint8>): (r: Result<seq<uint8>, FromBytesWithNulError>)
    ensures r.Success? <==> |bytes| > 0 && bytes[|bytes| - 1] == 0 && NoNul(bytes[..|bytes| - 1])
    ensures r.Success? ==> r.value == bytes[..|bytes| - 1]
    ensures r == Failure(NotNulTerminated) <==> NoNul(bytes)
  {
    match Memchr(bytes)
    case None => Failure(NotNulTerminated)
    case Some(pos) =>
      if pos + 1 != |bytes| then
        assert bytes[pos] == 0;
        Failure(InteriorNul(pos))
      else Success(bytes[..pos])
  }

  datatype NulError = NulError(position: nat, bytes: seq<uint8>)

  /** `CString::new`: refuses bytes with an interior NUL, otherwise appends the
      terminator. */
  function CStringNew(bytes: seq<uint8>): (r: Result<seq<uint8>, NulError>)
    ensures r.Success? <==> NoNul(bytes)
    ensures r.Success? ==> r.value == bytes + [0]
    ensures r.Failure? ==> r.error.bytes == bytes && r.error.position < |bytes| && bytes[r.error.position] == 0
  {
    match Memchr(bytes)
    case Some(i) => Failure(NulError(i, bytes))
    case None => Success(bytes + [0])
  }

  /** A C string built by `CString::new` is accepted back by
      `CStr::from_bytes_with_nul` with the same contents. */
  lemma LemmaCStringRoundTrip(bytes: seq<uint8>)
    requires CStringNew(bytes).Success?
    ensures CStrFromBytesWithNul(CStringNew(bytes).value) == Success(bytes)
  {
    var c := CStringNew(bytes).value;
    assert c[..|c| - 1] == bytes;
  }
}
