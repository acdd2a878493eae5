/** Well-formed UTF-8, as Rust's `str::from_utf8` accepts it: the byte
    sequences of table 3-7 of the Unicode Standard (no overlong forms, no
    surrogates, nothing above U+10FFFF). */
module Utf8 {
  import opened Memory

  predicate IsContinuation(b: uint8) {
    0x80 <= b <= 0xBF
  }

  /** The length of the well-formed character at the start of `b`, or 0 when
      `b` does not start with one. */
  function CharWidth(b: seq<uint8>): (w: nat)
    ensures w <= 4 && w <= |b|
    ensures |b| > 0 && b[0] < 0x80 ==> w == 1
  {
    if |b| == 0 then 0
    else if b[0] <= 0x7F then 1
    else if 0xC2 <= b[0] <= 0xDF then
      if |b| >= 2 && IsContinuation(b[1]) then 2 else 0
    else if 0xE0 <= b[0] <= 0xEF then
      var lo := if b[0] == 0xE0 then 0xA0 else 0x80;
      var hi := if b[0] == 0xED then 0x9F else 0xBF;
      if |b| >= 3 && lo <= b[1] <= hi && IsContinuation(b[2]) then 3 else 0
    else if 0xF0 <= b[0] <= 0xF4 then
      var lo := if b[0] == 0xF0 then 0x90 else 0x80;
      var hi := if b[0] == 0xF4 then 0x8F else 0xBF;
      if |b| >= 4 && lo <= b[1] <= hi && IsContinuation(b[2]) && IsContinuation(b[3]) then 4 else 0
    else 0
  }

  /** `b` is a concatenation of well-formed characters. */
  predicate ValidUtf8(b: seq<uint8>)
    decreases |b|
  {
    |b| == 0 || (CharWidth(b) > 0 && ValidUtf8(b[CharWidth(b)..]))
  }

  predicate IsAscii(b: seq<uint8>) {
    forall i :: 0 <= i < |b| ==> b[i] < 0x80
  }

  /** Every ASCII byte string is valid UTF-8. */
  lemma {:induction false} LemmaAsciiIsValid(b: seq<uint8>)
    requires IsAscii(b)
    ensures ValidUtf8(b)
    decreases |b|
  {
    if |b| > 0 {
      assert CharWidth(b) == 1;
      assert IsAscii(b[1..]) by {
        forall i | 0 <= i < |b[1..]| ensures b[1..][i] < 0x80 {
          assert b[1..][i] == b[i + 1];
        }
      }
      LemmaAsciiIsValid(b[1..]);
    }
  }

  /** The result of `String::from_utf8_lossy`: the bytes themselves when they
      are valid UTF-8; otherwise a string in which each invalid sequence is
      replaced by U+FFFD, whose exact contents this model does not compute. */
  datatype LossyText = Exact(bytes: seq<uint8>) | Replaced(raw: seq<uint8>)

  function FromUtf8Lossy(b: seq<uint8>): (t: LossyText)
    ensures t.Exact? <==> ValidUtf8(b)
    ensures t.Exact? ==> t.bytes == b
    ensures t.Replaced? ==> t.raw == b
  {
    if ValidUtf8(b) then Exact(b) else Replaced(b)
  }

  predicate IsAsciiText(s: string) {
    forall i :: 0 <= i < |s| ==> s[i] as int < 0x80
  }

  /** `str::as_bytes` for ASCII text: one byte per character, its code. */
  function AsBytes(s: string): (b: seq<uint8>)
    requires IsAsciiText(s)
    ensures |b| == |s| && IsAscii(b)
    ensures forall i :: 0 <= i < |s| ==> b[i] == s[i] as int
  {
    seq(|s|, i requires 0 <= i < |s| => s[i] as int)
  }
}
