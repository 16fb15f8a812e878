/** The 32-bit counter behind the 16-bit reference ids of jobs. */
module ReferenceIds {
  import opened Basics

  /** `Interlocked.Increment` wraps around at the end of the 32-bit range. */
  function Increment(counter: int32): int32 {
    if counter == 0x7fff_ffff then -0x8000_0000 else counter + 1
  }

  /** The unchecked conversion to ushort keeps the low 16 bits. */
  function Low16(counter: int32): u16 { counter % 0x1_0000 }

  /** The counter after one call: an id of zero is skipped by counting once more. */
  function Advance(counter: int32): int32 {
    if Low16(Increment(counter)) == 0 then Increment(Increment(counter)) else Increment(counter)
  }

  function CounterAfter(counter: int32, calls: nat): int32 {
    if calls == 0 then counter else Advance(CounterAfter(counter, calls - 1))
  }

  /** The id returned by the k-th call, counted from 0. */
  function Id(counter: int32, k: nat): u16 { Low16(CounterAfter(counter, k + 1)) }

  class ReferenceCounter {
    var referenceId: int32

    constructor (start: int32)
      ensures referenceId == start
    {
      referenceId := start;
    }

    /** Recurses at most once: after an id of zero the next one is one. */
    method GetNextReferenceId() returns (id: u16)
      modifies this
      ensures referenceId == Advance(old(referenceId)) && id == Low16(referenceId) && id != 0
      decreases if Low16(Increment(referenceId)) == 0 then 1 else 0
    {
      referenceId := Increment(referenceId);
      id := Low16(referenceId);
      if id <= 0 {
        id := GetNextReferenceId();
      }
    }
  }

  /** Counting is addition modulo 2^32. */
  lemma IncrementWraps(counter: int32)
    ensures Increment(counter) == (counter + 1 + 0x8000_0000) % 0x1_0000_0000 - 0x8000_0000
  {}

  lemma AdvanceLow(counter: int32)
    ensures Low16(Advance(counter)) == Low16(counter) % 0xffff + 1
  {
    assert Low16(Increment(counter)) == (Low16(counter) + 1) % 0x1_0000;
    assert Low16(Increment(Increment(counter))) == (Low16(Increment(counter)) + 1) % 0x1_0000;
  }

  lemma NoTwoZeros(counter: int32)
    requires Low16(counter) == 0
    ensures Low16(Increment(counter)) == 1
  {}

  /** The ids run round the circle 1 .. 65535, wherever the counter starts and also when it wraps around. */
  lemma {:induction false} IdsRunInACircle(counter: int32, k: nat)
    ensures Id(counter, k) == (Low16(counter) + k) % 0xffff + 1
  {
    hide Advance, Low16;
    assert CounterAfter(counter, k + 1) == Advance(CounterAfter(counter, k));
    AdvanceLow(CounterAfter(counter, k));
    if k > 0 {
      IdsRunInACircle(counter, k - 1);
      NextOnCircle(Low16(counter) + k - 1);
    }
  }

  lemma NextOnCircle(n: nat)
    ensures (n % 0xffff + 1) % 0xffff == (n + 1) % 0xffff
  {}

  /** Any 65535 consecutive ids are non-zero and pairwise different; the next one is the first one again. */
  lemma IdsAreDistinct(counter: int32, i: nat, j: nat)
    requires i < j
    ensures Id(counter, i) != 0
    ensures j - i < 0xffff ==> Id(counter, i) != Id(counter, j)
    ensures j - i == 0xffff ==> Id(counter, i) == Id(counter, j)
  {
    hide Low16, Id;
    IdsRunInACircle(counter, i);
    IdsRunInACircle(counter, j);
    PositionsOnCircle(Low16(counter) + i, j - i);
  }

  lemma PositionsOnCircle(n: nat, d: nat)
    ensures 0 < d < 0xffff ==> n % 0xffff != (n + d) % 0xffff
    ensures d == 0xffff ==> n % 0xffff == (n + d) % 0xffff
  {}
}
