/** Small building blocks shared by the other modules. */
module Basics {

  datatype Option<+T> = None | Some(value: T)

  /** The value range of the program's `ushort`. */
  type u16 = x: int | 0 <= x < 0x1_0000

  /** The value range of the program's `int`. */
  type int32 = x: int | -0x8000_0000 <= x < 0x8000_0000

  /** The size of one element in bytes. */
  type ElementSize = x: int | 1 <= x witness 1

  /**
   * What becomes of a job on the connection: it is answered, its telegram cannot be sent, or no answer arrives in time,
   * in which case the PLC may or may not have executed it.
   */
  datatype Link = Answered | Unsent | Unanswered(executed: bool)

  function Min(a: int, b: int): int {
    if a <= b then a else b
  }

  function Max(a: int, b: int): int {
    if a <= b then b else a
  }

  lemma Widens(length: nat, elementSize: ElementSize)
    ensures length <= length * elementSize
    ensures length > 0 ==> (length < length * elementSize <==> elementSize > 1)
  {
    assert length * elementSize == length + length * (elementSize - 1);
  }

  /** No value stands at two positions. */
  ghost predicate Distinct<T>(s: seq<T>) {
    forall i, j :: 0 <= i < j < |s| ==> s[i] != s[j]
  }

  /** The sequence without its element at k. */
  function Without<T>(s: seq<T>, k: nat): seq<T>
    requires k < |s|
  {
    s[..k] + s[k + 1..]
  }

  lemma RemovalKeepsDistinct<T>(s: seq<T>, k: nat)
    requires k < |s| && Distinct(s)
    ensures Distinct(Without(s, k))
    ensures forall i | 0 <= i < |s| - 1 :: Without(s, k)[i] == s[if i < k then i else i + 1] != s[k]
  {}

  lemma AdditionKeepsDistinct<T>(s: seq<T>, x: T)
    requires Distinct(s) && x !in s
    ensures Distinct(s + [x])
  {}
}
