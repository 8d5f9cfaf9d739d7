/** Bytes, sizes and C strings. */
module Bytes {
  type Byte = b: int | 0 <= b < 256

  const QUOTE: Byte := 34

  /** The largest size_t. */
  const SIZE_MAX := 0xFFFF_FFFF_FFFF_FFFF

  /** The contents of a NUL-terminated buffer, without its terminator. */
  type CString = s: seq<Byte> | NulFree(s)

  predicate NulFree(s: seq<Byte>) {
    forall i :: 0 <= i < |s| ==> s[i] != 0
  }

  /** The byte a C program reads at offset i of the buffer holding s and its terminator. */
  function At(s: seq<Byte>, i: nat): (b: Byte) {
    if i < |s| then s[i] else 0
  }

  lemma Associate<T>(a: seq<T>, b: seq<T>, c: seq<T>)
    ensures a + (b + c) == (a + b) + c
  {
  }
}
