/** Reading a block list that arrives in fragments, and decoding it. */
module Fragments {
  import opened Basics

  /** One acknowledgement: its user data, and whether further ones follow. */
  datatype Fragment = Fragment(data: seq<bv8>, more: bool)

  /** What the loop leaves: nothing, the reassembled bytes, null after a failed send, or the exception that ends it. */
  datatype Outcome = Nothing | Assembled(data: seq<bv8>) | NotSent | TimedOut | CopyFailed | NotConnected

  function Concat(fragments: seq<Fragment>): seq<bv8> {
    if fragments == [] then [] else Concat(fragments[..|fragments| - 1]) + fragments[|fragments| - 1].data
  }

  /** The fragments up to and including the first one that announces no further one. */
  function Used(fragments: seq<Fragment>): seq<Fragment> {
    if fragments == [] then []
    else if !fragments[0].more then [fragments[0]]
    else [fragments[0]] + Used(fragments[1..])
  }

  predicate Complete(fragments: seq<Fragment>) {
    exists f <- fragments :: !f.more
  }

  /** Some fragment without data follows one with data. */
  predicate EmptyAfterData(fragments: seq<Fragment>) {
    fragments != [] &&
    (EmptyAfterData(fragments[..|fragments| - 1]) ||
     (fragments[|fragments| - 1].data == [] && Concat(fragments[..|fragments| - 1]) != []))
  }

  /** The pool rents at least the requested size, and not less for a larger request. */
  ghost predicate Renting(rent: nat -> nat) {
    forall m: nat, n: nat | m <= n :: m <= rent(m) <= rent(n)
  }

  lemma {:induction false} UsedAt(fragments: seq<Fragment>, i: nat)
    requires i < |fragments| && forall k | 0 <= k < i :: fragments[k].more
    ensures !fragments[i].more ==> Used(fragments) == fragments[..i + 1] && Complete(fragments)
  {
    if fragments[0].more {
      if i > 0 {
        UsedAt(fragments[1..], i - 1);
        assert fragments[..i + 1] == [fragments[0]] + fragments[1..][..i];
      }
    } else {
      assert i == 0 && fragments[0] in fragments;
    }
  }

  lemma {:induction false} UsedAll(fragments: seq<Fragment>)
    requires forall f <- fragments :: f.more
    ensures Used(fragments) == fragments && !Complete(fragments)
  {
    if fragments != [] {
      UsedAll(fragments[1..]);
    }
  }

  /** An empty fragment after data that has been used already stays one. */
  lemma {:induction false} DirtyPrefix(fragments: seq<Fragment>, i: nat)
    requires i <= |fragments| && forall k | 0 <= k < i :: fragments[k].more
    requires EmptyAfterData(fragments[..i])
    ensures EmptyAfterData(Used(fragments))
    decreases |fragments| - i
  {
    if i == |fragments| {
      assert fragments[..i] == fragments;
      UsedAll(fragments);
    } else {
      NextFragment(fragments, i);
      if fragments[i].more {
        DirtyPrefix(fragments, i + 1);
      } else {
        UsedAt(fragments, i);
      }
    }
  }

  lemma NextFragment(fragments: seq<Fragment>, i: nat)
    requires i < |fragments|
    ensures Concat(fragments[..i + 1]) == Concat(fragments[..i]) + fragments[i].data
    ensures EmptyAfterData(fragments[..i + 1]) <==>
            EmptyAfterData(fragments[..i]) || (fragments[i].data == [] && Concat(fragments[..i]) != [])
  {
    assert fragments[..i + 1][..i] == fragments[..i];
  }

  method CopyTo(data: seq<bv8>, target: array<bv8>, at: nat)
    requires at + |data| <= target.Length
    modifies target
    ensures target[..] == old(target[..at]) + data + old(target[at + |data|..])
  {
    forall k | 0 <= k < |data| {
      target[at + k] := data[k];
    }
  }

  /** Rents memory for the new total length, moves the old bytes there and adds the new ones at the current position. */
  method Append(memory: array?<bv8>, currentPosition: nat, totalLength: nat, data: seq<bv8>, rent: nat -> nat)
    returns (ok: bool, newMem: array<bv8>)
    requires Renting(rent) && (memory == null ==> currentPosition == 0)
    ensures fresh(newMem) && newMem.Length == rent(totalLength)
    ensures ok <==> currentPosition + |data| <= newMem.Length && (memory != null ==> memory.Length <= newMem.Length)
    ensures ok && (memory != null ==> currentPosition <= memory.Length) ==>
              newMem[..currentPosition + |data|] == (if memory == null then [] else memory[..currentPosition]) + data
  {
    newMem := new bv8[rent(totalLength)];
    if memory != null {
      if newMem.Length < memory.Length {
        return false, newMem;
      }
      CopyTo(memory[..], newMem, 0);
      assert currentPosition <= memory.Length ==> newMem[..currentPosition] == memory[..currentPosition];
    }
    if currentPosition + |data| > newMem.Length {
      return false, newMem;
    }
    CopyTo(data, newMem, currentPosition);
    ok := true;
  }

  /** What the loop keeps after the fragments so far. */
  ghost predicate Kept(sofar: seq<Fragment>, memory: array?<bv8>, currentPosition: nat, totalLength: nat, rent: nat -> nat)
    reads memory
  {
    && (memory == null <==> Concat(sofar) == [])
    && (memory == null ==> totalLength == currentPosition == 0)
    && (memory != null ==> totalLength <= memory.Length)
    && (!EmptyAfterData(sofar) && memory != null ==>
          && totalLength == currentPosition && memory.Length == rent(totalLength)
          && memory[..currentPosition] == Concat(sofar))
    && (EmptyAfterData(sofar) ==> totalLength < |Concat(sofar)|)
  }

  lemma KeptAppend(fragments: seq<Fragment>, i: nat, memory: array?<bv8>, currentPosition: nat, totalLength: nat,
                   rent: nat -> nat, newMem: array<bv8>)
    requires i < |fragments| && fragments[i].data != [] && Renting(rent)
    requires Kept(fragments[..i], memory, currentPosition, totalLength, rent)
    requires newMem.Length == rent(totalLength + |fragments[i].data|)
    ensures !EmptyAfterData(fragments[..i]) ==>
              && currentPosition + |fragments[i].data| <= newMem.Length
              && (memory != null ==> currentPosition <= memory.Length <= newMem.Length)
    ensures currentPosition + |fragments[i].data| <= newMem.Length &&
            ((memory != null ==> currentPosition <= memory.Length) ==>
               newMem[..currentPosition + |fragments[i].data|] ==
               (if memory == null then [] else memory[..currentPosition]) + fragments[i].data) ==>
              Kept(fragments[..i + 1], newMem, currentPosition + |fragments[i].data|, totalLength + |fragments[i].data|, rent)
  {
    hide Concat, EmptyAfterData;
    NextFragment(fragments, i);
    assert totalLength <= rent(totalLength) <= rent(totalLength + |fragments[i].data|);
  }

  lemma KeptEmpty(fragments: seq<Fragment>, i: nat, memory: array?<bv8>, currentPosition: nat, totalLength: nat,
                  rent: nat -> nat)
    requires i < |fragments| && fragments[i].data == []
    requires Kept(fragments[..i], memory, currentPosition, totalLength, rent)
    ensures Kept(fragments[..i + 1], memory, currentPosition, 0, rent)
  {
    hide Concat, EmptyAfterData;
    NextFragment(fragments, i);
  }

  /**
   * Reassembles the fragments in a buffer that grows with them. The bytes are those of all fragments in order exactly
   * when no empty fragment follows one with data: an empty one sets the total length back to zero. When the fragments
   * end too early, the next request was sent and not answered, or it was not sent.
   */
  method ReadFragments(fragments: seq<Fragment>, sent: bool, rent: nat -> nat) returns (outcome: Outcome)
    requires Renting(rent)
    ensures !EmptyAfterData(Used(fragments)) ==>
              outcome == if !Complete(fragments) then (if sent then TimedOut else NotSent)
                         else if Concat(Used(fragments)) == [] then Nothing
                         else Assembled(Concat(Used(fragments)))
    ensures EmptyAfterData(Used(fragments)) ==>
              || outcome.CopyFailed?
              || (!Complete(fragments) && outcome == if sent then TimedOut else NotSent)
              || (outcome.Assembled? && |outcome.data| < |Concat(Used(fragments))|)
  {
    hide Concat, EmptyAfterData, Used, Complete, Renting, Kept;
    var memory: array?<bv8> := null;
    var currentPosition: nat, totalLength: nat := 0, 0;
    var i := 0;
    NothingKept(fragments, rent);
    while i < |fragments|
      invariant 0 <= i <= |fragments|
      invariant forall k | 0 <= k < i :: fragments[k].more
      invariant if memory == null then currentPosition == 0 else fresh(memory)
      invariant Kept(fragments[..i], memory, currentPosition, totalLength, rent)
    {
      var data := fragments[i].data;
      if |data| > 0 {
        var ok, newMem := Append(memory, currentPosition, totalLength + |data|, data, rent);
        KeptAppend(fragments, i, memory, currentPosition, totalLength, rent, newMem);
        if !ok {
          DirtyPrefix(fragments, i);
          return CopyFailed;
        }
        memory, totalLength := newMem, totalLength + |data|;
        currentPosition := currentPosition + |data|;
      } else {
        KeptEmpty(fragments, i, memory, currentPosition, totalLength, rent);
        totalLength := 0;
      }
      if !fragments[i].more {
        UsedAt(fragments, i);
        return Leave(Used(fragments), memory, currentPosition, totalLength, rent);
      }
      i := i + 1;
    }
    assert fragments[..i] == fragments;
    UsedAll(fragments);
    outcome := if sent then TimedOut else NotSent;
  }

  lemma NothingKept(fragments: seq<Fragment>, rent: nat -> nat)
    ensures Kept(fragments[..0], null, 0, 0, rent)
  {}

  /** The memory as the decoder gets it. */
  function Leave(ghost used: seq<Fragment>, memory: array?<bv8>, ghost currentPosition: nat, totalLength: nat,
                 ghost rent: nat -> nat): (outcome: Outcome)
    requires Kept(used, memory, currentPosition, totalLength, rent)
    reads memory
    ensures !EmptyAfterData(used) ==> outcome == if Concat(used) == [] then Nothing else Assembled(Concat(used))
    ensures EmptyAfterData(used) ==> outcome.Assembled? && |outcome.data| < |Concat(used)|
  {
    if memory == null then Nothing else Assembled(memory[..totalLength])
  }

  // ---- decoding ----

  /** The language byte stands for the name that GetLanguage makes of it. */
  datatype PlcBlock = PlcBlock(number: nat, flags: bv8, language: bv8)

  /** The block in the four bytes from `at` on; its number is big-endian. */
  function BlockAt(memory: seq<bv8>, at: nat): PlcBlock
    requires at + 4 <= |memory|
  {
    PlcBlock(memory[at] as int * 256 + memory[at + 1] as int, memory[at + 2], memory[at + 3])
  }

  /** What the decoder makes of the bytes. */
  function Blocks(memory: seq<bv8>): (blocks: seq<PlcBlock>)
    ensures |blocks| == if memory == [] then 0 else (|memory| - 1) / 4
  {
    seq(if memory == [] then 0 else (|memory| - 1) / 4, k requires 0 <= k < (|memory| - 1) / 4 => BlockAt(memory, 4 * k))
  }

  /** The bytes of a block list as the PLC sends them. */
  function Encode(list: seq<(bv8, bv8, bv8, bv8)>): seq<bv8> {
    if list == [] then []
    else
      var (high, low, flags, language) := list[|list| - 1];
      Encode(list[..|list| - 1]) + [high, low, flags, language]
  }

  lemma {:induction false} EncodeAt(list: seq<(bv8, bv8, bv8, bv8)>, k: nat)
    requires k < |list|
    ensures |Encode(list)| == 4 * |list|
    ensures Encode(list)[4 * k..4 * k + 4] == [list[k].0, list[k].1, list[k].2, list[k].3]
  {
    var n := |list| - 1;
    if k < n {
      EncodeAt(list[..n], k);
    } else if n > 0 {
      EncodeAt(list[..n], 0);
    }
  }

  /** The loop condition asks for one byte more than a block has, so the last block of every list is not decoded. */
  lemma LastBlockLost(list: seq<(bv8, bv8, bv8, bv8)>)
    ensures list == [] ==> Blocks(Encode(list)) == []
    ensures list != [] ==> |Blocks(Encode(list))| == |list| - 1
    ensures forall k | 0 <= k < |list| - 1 ::
              Blocks(Encode(list))[k] == PlcBlock(list[k].0 as int * 256 + list[k].1 as int, list[k].2, list[k].3)
  {
    hide Encode;
    EncodedLength(list);
    forall k | 0 <= k < |list| - 1
      ensures Blocks(Encode(list))[k] == PlcBlock(list[k].0 as int * 256 + list[k].1 as int, list[k].2, list[k].3)
    {
      EncodedBlock(list, k);
    }
  }

  lemma EncodedLength(list: seq<(bv8, bv8, bv8, bv8)>)
    ensures |Encode(list)| == 4 * |list|
  {
    if list != [] {
      EncodeAt(list, 0);
    }
  }

  lemma EncodedBlock(list: seq<(bv8, bv8, bv8, bv8)>, k: nat)
    requires k < |list| && |Encode(list)| == 4 * |list|
    ensures BlockAt(Encode(list), 4 * k) == PlcBlock(list[k].0 as int * 256 + list[k].1 as int, list[k].2, list[k].3)
  {
    hide Encode;
    EncodeAt(list, k);
    var four := Encode(list)[4 * k..4 * k + 4];
    assert forall i | 0 <= i < 4 :: four[i] == Encode(list)[4 * k + i];
  }

  method TranslateFromSslData(memory: seq<bv8>, size: nat) returns (result: seq<PlcBlock>)
    requires size <= |memory|
    ensures result == Blocks(memory[..size])
  {
    result := [];
    var offset := 0;
    while offset + 4 < size
      invariant offset == 4 * |result| && (offset < size || size == 0 == offset)
      invariant forall k | 0 <= k < |result| :: 4 * k + 4 <= size && result[k] == BlockAt(memory[..size], 4 * k)
    {
      var number := memory[offset] as int * 256 + memory[offset + 1] as int;
      offset := offset + 2;
      var flags := memory[offset];
      offset := offset + 1;
      var language := memory[offset];
      offset := offset + 1;
      result := result + [PlcBlock(number, flags, language)];
    }
  }

  /** A list that arrives completely, with no empty fragment after data, is reassembled and decoded; null otherwise. */
  method ReadBlocksOfTypesAsync(connected: bool, fragments: seq<Fragment>, sent: bool, rent: nat -> nat)
    returns (outcome: Outcome, blocks: Option<seq<PlcBlock>>)
    requires Renting(rent)
    ensures outcome.NotConnected? <==> !connected
    ensures connected && !EmptyAfterData(Used(fragments)) ==>
              if Complete(fragments) then blocks == Some(Blocks(Concat(Used(fragments))))
              else outcome == (if sent then TimedOut else NotSent) && blocks == None
    ensures blocks.Some? <==> outcome.Nothing? || outcome.Assembled?
  {
    hide Concat, EmptyAfterData, Used, Complete;
    if !connected {
      return NotConnected, None;
    }
    outcome := ReadFragments(fragments, sent, rent);
    blocks := None;
    if outcome.Nothing? {
      blocks := Some([]);
    } else if outcome.Assembled? {
      assert outcome.data[..|outcome.data|] == outcome.data;
      var list := TranslateFromSslData(outcome.data, |outcome.data|);
      blocks := Some(list);
    }
  }
}
