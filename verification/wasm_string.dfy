/** The host's null-terminated string codec (`WasmString` in the host's
    utils): decoding keeps the bytes before the first zero and converts them
    lossily to text; encoding is deliberately unsupported. */
module WasmStrings {
  import opened Wrappers
  import opened Memory
  import opened Utf8
  import opened CStrings

  /** `buffer.iter().take_while(|b| **b != 0)`, collected. */
  function TakeWhileNonZero(buffer: seq<uint8>): (chunk: seq<uint8>)
    ensures |chunk| <= |buffer| && chunk == buffer[..|chunk|]
    ensures NoNul(chunk)
    ensures |chunk| < |buffer| ==> buffer[|chunk|] == 0
  {
    if |buffer| == 0 || buffer[0] == 0 then []
    else [buffer[0]] + TakeWhileNonZero(buffer[1..])
  }

  /** The prefix before the first zero is the only prefix with no zero that
      stops at a zero or at the end of the buffer. */
  lemma {:induction false} LemmaTakeWhileUnique(buffer: seq<uint8>, k: nat)
    requires k <= |buffer| && NoNul(buffer[..k])
    requires k < |buffer| ==> buffer[k] == 0
    ensures TakeWhileNonZero(buffer) == buffer[..k]
    decreases k
  {
    if k > 0 {
      assert buffer[0] == buffer[..k][0];
      assert buffer[1..][..k - 1] == buffer[..k][1..];
      LemmaTakeWhileUnique(buffer[1..], k - 1);
      assert buffer[..k] == [buffer[0]] + buffer[1..][..k - 1];
    }
  }

  /** The kept bytes are those before the first zero found by `Memchr`, or the
      whole buffer when it has no zero. */
  lemma LemmaTakeWhileIsMemchr(buffer: seq<uint8>)
    ensures TakeWhileNonZero(buffer) == buffer[..Memchr(buffer).GetOr(|buffer|)]
  {
    LemmaTakeWhileUnique(buffer, Memchr(buffer).GetOr(|buffer|));
  }

  /** The host-side string a `WasmString` wraps. */
  datatype WasmString = WasmString(text: LossyText) {
    /** The bytes the text was decoded from. */
    function Source(): seq<uint8> {
      match text
      case Exact(b) => b
      case Replaced(b) => b
    }
  }

  /** wasmi's `ValueError`; decoding a `WasmString` never produces it. */
  datatype ValueError = InvalidLittleEndianBuffer

  /** `WasmString::from_little_endian`: keep the bytes before the first zero,
      push a NUL, view the result as a `CStr` (the `unwrap` of that view is the
      `.value` below, whose precondition is discharged for every buffer) and
      convert it lossily. */
  function FromLittleEndian(buffer: seq<uint8>): (r: Result<WasmString, ValueError>)
    ensures r.Success?
    ensures var d := r.value.Source();
      && |d| <= |buffer| && d == buffer[..|d|]
      && NoNul(d)
      && (|d| < |buffer| ==> buffer[|d|] == 0)
    ensures r.value.text.Exact? <==> ValidUtf8(r.value.Source())
  {
    var kept := TakeWhileNonZero(buffer);
    var chunk := kept + [0];
    assert chunk[..|chunk| - 1] == kept;
    var cstr := CStrFromBytesWithNul(chunk);
    Success(WasmString(FromUtf8Lossy(cstr.value)))
  }

  /** The chunk handed to `CStr::from_bytes_with_nul` has exactly one NUL, its
      last byte, so that call succeeds on every buffer. */
  lemma LemmaChunkIsCString(buffer: seq<uint8>)
    ensures var chunk := TakeWhileNonZero(buffer) + [0];
      && chunk[|chunk| - 1] == 0
      && Memchr(chunk) == Some(|chunk| - 1)
      && CStrFromBytesWithNul(chunk) == Success(TakeWhileNonZero(buffer))
  {
    var kept := TakeWhileNonZero(buffer);
    var chunk := kept + [0];
    assert chunk[..|chunk| - 1] == kept;
    LemmaMemchrIsFirst(chunk, |chunk| - 1);
  }

  /** The decoded length is the index of the first zero, or the whole buffer. */
  lemma LemmaDecodedLength(buffer: seq<uint8>)
    ensures |FromLittleEndian(buffer).value.Source()| == Memchr(buffer).GetOr(|buffer|)
  {
    LemmaTakeWhileIsMemchr(buffer);
  }

  /** Round trip: a zero-free string followed by a NUL and anything decodes to
      itself, exactly when it is valid UTF-8. */
  lemma LemmaDecodeRoundTrip(s: seq<uint8>, rest: seq<uint8>)
    requires NoNul(s)
    ensures FromLittleEndian(s + [0] + rest).value.Source() == s
    ensures ValidUtf8(s) ==> FromLittleEndian(s + [0] + rest) == Success(WasmString(Exact(s)))
  {
    var buffer := s + [0] + rest;
    assert buffer[..|s|] == s;
    LemmaTakeWhileUnique(buffer, |s|);
  }

  /** Bytes after the first zero do not affect the result. */
  lemma LemmaDecodeIgnoresSuffix(buffer: seq<uint8>, other: seq<uint8>, k: nat)
    requires k < |buffer| && buffer[k] == 0 && NoNul(buffer[..k])
    requires k < |other| && other[..k + 1] == buffer[..k + 1]
    ensures FromLittleEndian(other) == FromLittleEndian(buffer)
  {
    assert other[..k] == buffer[..k] by {
      assert other[..k] == other[..k + 1][..k];
      assert buffer[..k] == buffer[..k + 1][..k];
    }
    assert other[k] == other[..k + 1][k];
    LemmaTakeWhileUnique(buffer, k);
    LemmaTakeWhileUnique(other, k);
  }

  /** The panic raised by `unimplemented!()`. */
  datatype EncodePanic = Unimplemented

  /** `WasmString::into_little_endian`: writing a string into guest memory is
      not supported and always panics, leaving the buffer unwritten. */
  function IntoLittleEndian(s: WasmString, buffer: seq<uint8>): (r: Result<seq<uint8>, EncodePanic>)
    ensures r == Failure(Unimplemented)
  {
    Failure(Unimplemented)
  }

  /** wasmi's `get_value::<WasmString>(offset)`: decode the window of `width`
      bytes (the size of the `WasmString` value) starting at `offset`, failing
      when that window leaves the memory. */
  function GetValue(mem: seq<uint8>, offset: nat, width: nat): (r: Result<WasmString, MemoryError>)
    ensures r.Success? <==> InBounds(mem, offset, width)
    ensures r.Success? ==> var d := r.value.Source();
      && |d| <= width && offset + |d| <= |mem| && d == mem[offset..offset + |d|]
      && NoNul(d)
      && (|d| < width ==> mem[offset + |d|] == 0)
  {
    match Get(mem, offset, width)
    case Failure(e) => Failure(e)
    case Success(window) =>
      var s := FromLittleEndian(window).value;
      assert mem[offset..offset + |s.Source()|] == window[..|s.Source()|];
      Success(s)
  }

  /** A zero-free, valid UTF-8 string stored with its terminator inside the
      window reads back as itself. */
  lemma LemmaGetValueOfStoredString(mem: seq<uint8>, offset: nat, width: nat, s: seq<uint8>)
    requires InBounds(mem, offset, width) && |s| < width
    requires mem[offset..offset + |s|] == s && mem[offset + |s|] == 0
    requires NoNul(s) && ValidUtf8(s)
    ensures GetValue(mem, offset, width) == Success(WasmString(Exact(s)))
  {
    var window := mem[offset..offset + width];
    assert window[..|s|] == s;
    assert window[|s|] == 0;
    LemmaTakeWhileUnique(window, |s|);
    LemmaChunkIsCString(window);
  }
}
