/** A module's linear memory as a plain byte sequence, with the bounds-checked
    range write and read the host uses (wasmi's `MemoryRef::set` and the region
    check behind `get_value`). Memory growth is not modelled. */
module Memory {
  import opened Wrappers

  type uint8 = b: int | 0 <= b < 256

  datatype MemoryError = OutOfBounds(offset: nat, len: nat, size: nat)

  predicate InBounds(mem: seq<uint8>, offset: nat, len: nat) {
    offset + len <= |mem|
  }

  /** Writes `bytes` at `offset`; fails when the region leaves the memory. */
  function Set(mem: seq<uint8>, offset: nat, bytes: seq<uint8>): (r: Result<seq<uint8>, MemoryError>)
    ensures r.Success? <==> InBounds(mem, offset, |bytes|)
    ensures r.Failure? ==> r.error == OutOfBounds(offset, |bytes|, |mem|)
    ensures r.Success? ==> |r.value| == |mem|
    ensures r.Success? ==> r.value[offset..offset + |bytes|] == bytes
    ensures r.Success? ==> forall i :: 0 <= i < |mem| && !(offset <= i < offset + |bytes|) ==> r.value[i] == mem[i]
  {
    if InBounds(mem, offset, |bytes|) then
      Success(mem[..offset] + bytes + mem[offset + |bytes|..])
    else
      Failure(OutOfBounds(offset, |bytes|, |mem|))
  }

  /** Copies `len` bytes starting at `offset`; fails when the region leaves the memory. */
  function Get(mem: seq<uint8>, offset: nat, len: nat): (r: Result<seq<uint8>, MemoryError>)
    ensures r.Success? <==> InBounds(mem, offset, len)
    ensures r.Failure? ==> r.error == OutOfBounds(offset, len, |mem|)
    ensures r.Success? ==> |r.value| == len && forall i :: 0 <= i < len ==> r.value[i] == mem[offset + i]
  {
    if InBounds(mem, offset, len) then Success(mem[offset..offset + len])
    else Failure(OutOfBounds(offset, len, |mem|))
  }

  /** Reading back a region just written yields the bytes written. */
  lemma LemmaGetAfterSet(mem: seq<uint8>, offset: nat, bytes: seq<uint8>)
    requires Set(mem, offset, bytes).Success?
    ensures Get(Set(mem, offset, bytes).value, offset, |bytes|) == Success(bytes)
  {
  }

  /** A write does not disturb a region it does not overlap. */
  lemma LemmaGetAfterSetDisjoint(mem: seq<uint8>, offset: nat, bytes: seq<uint8>, at: nat, len: nat)
    requires Set(mem, offset, bytes).Success?
    requires at + len <= offset || offset + |bytes| <= at
    ensures Get(Set(mem, offset, bytes).value, at, len) == Get(mem, at, len)
  {
    var written := Set(mem, offset, bytes).value;
    if InBounds(mem, at, len) {
      assert written[at..at + len] == mem[at..at + len];
    }
  }
}
