/** The in-memory PLC: what one whole read or write of an item means. */
module Plc {
  import opened Basics

  datatype PlcArea = SI | SF | AI | AQ | DP | IB | QB | FB | DB | DI | LO | PR | CT | TM | CI | TI

  datatype ReturnCode =
    | Reserved | HardwareFault | AccessFault | OutOfRange | NotSupported | SizeMismatch | DataError | Success

  /** One request as the provider sees it; reads carry no data. A bit is addressed by its bit offset. */
  datatype Request = Request(block: BlockId, offset: nat, count: nat, elementSize: nat, bit: bool, data: seq<bv8>) {
    function Size(): nat { count * elementSize }

    /** A bit request is for at least one item; of several it reads or writes only the first bit. */
    predicate Readable() { bit ==> Size() >= 1 }

    predicate Writable() { Readable() && |data| >= if bit then 1 else Size() }
  }

  datatype Answer = Answer(code: ReturnCode, data: seq<bv8>)

  /** An area and a block number, the keys of the two nested dictionaries taken together. */
  datatype BlockId = BlockId(area: PlcArea, db: u16)

  /** The registered blocks with their registered bytes. */
  type Memory = map<BlockId, seq<bv8>>

  predicate InRange(length: nat, r: Request) {
    (if r.bit then r.offset / 8 else r.offset) + r.Size() <= length
  }

  function Status(mem: Memory, r: Request): ReturnCode {
    if r.block !in mem then DataError
    else if !InRange(|mem[r.block]|, r) then OutOfRange
    else Success
  }

  // ---- bits ----

  function GetBit(b: bv8, bit: nat): bool
    requires bit < 8
  {
    (b >> bit) & 1 == 1
  }

  function SetBit(b: bv8, bit: nat, value: bool): bv8
    requires bit < 8
  {
    if value then b | (1 << bit) else b & !(1 << bit)
  }

  /** Setting one bit makes that bit the given value and keeps the other seven. */
  lemma SetBitLaw(b: bv8, bit: nat, value: bool, other: nat)
    requires bit < 8 && other < 8
    ensures GetBit(SetBit(b, bit, value), other) == (if other == bit then value else GetBit(b, other))
  {
    match bit
    case 0 => match other { case 0 => case 1 => case 2 => case 3 => case 4 => case 5 => case 6 => case 7 => }
    case 1 => match other { case 0 => case 1 => case 2 => case 3 => case 4 => case 5 => case 6 => case 7 => }
    case 2 => match other { case 0 => case 1 => case 2 => case 3 => case 4 => case 5 => case 6 => case 7 => }
    case 3 => match other { case 0 => case 1 => case 2 => case 3 => case 4 => case 5 => case 6 => case 7 => }
    case 4 => match other { case 0 => case 1 => case 2 => case 3 => case 4 => case 5 => case 6 => case 7 => }
    case 5 => match other { case 0 => case 1 => case 2 => case 3 => case 4 => case 5 => case 6 => case 7 => }
    case 6 => match other { case 0 => case 1 => case 2 => case 3 => case 4 => case 5 => case 6 => case 7 => }
    case 7 => match other { case 0 => case 1 => case 2 => case 3 => case 4 => case 5 => case 6 => case 7 => }
  }

  /** A byte is its eight bits. */
  lemma BitsDetermineByte(a: bv8, b: bv8)
    requires forall i :: 0 <= i < 8 ==> GetBit(a, i) == GetBit(b, i)
    ensures a == b
  {
    assert GetBit(a, 0) == GetBit(b, 0);
    assert GetBit(a, 1) == GetBit(b, 1);
    assert GetBit(a, 2) == GetBit(b, 2);
    assert GetBit(a, 3) == GetBit(b, 3);
    assert GetBit(a, 4) == GetBit(b, 4);
    assert GetBit(a, 5) == GetBit(b, 5);
    assert GetBit(a, 6) == GetBit(b, 6);
    assert GetBit(a, 7) == GetBit(b, 7);
  }

  // ---- one request ----

  function Read(mem: Memory, r: Request): Answer
    requires r.Readable()
  {
    if Status(mem, r) != Success then Answer(Status(mem, r), []) else Answer(Success, Stored(mem[r.block], r))
  }

  /** The bytes of a read that is in range; a bit is returned as one byte. */
  function Stored(bytes: seq<bv8>, r: Request): seq<bv8>
    requires r.Readable() && InRange(|bytes|, r)
  {
    if r.bit then [if GetBit(bytes[r.offset / 8], r.offset % 8) then 1 else 0]
    else bytes[r.offset..r.offset + r.Size()]
  }

  /** The block's bytes after a write that is in range. */
  function Patch(bytes: seq<bv8>, r: Request): (patched: seq<bv8>)
    requires r.Writable() && InRange(|bytes|, r)
    ensures |patched| == |bytes|
  {
    if r.bit then bytes[r.offset / 8 := SetBit(bytes[r.offset / 8], r.offset % 8, r.data[0] == 1)]
    else bytes[..r.offset] + r.data[..r.Size()] + bytes[r.offset + r.Size()..]
  }

  function Write(mem: Memory, r: Request): Memory
    requires r.Writable()
  {
    if Status(mem, r) != Success then mem
    else mem[r.block := Patch(mem[r.block], r)]
  }

  /** The memory after a list of writes, executed in order. */
  function Execute(mem: Memory, ws: seq<Request>): Memory
    requires forall w <- ws :: w.Writable()
  {
    if ws == [] then mem else Write(Execute(mem, ws[..|ws| - 1]), ws[|ws| - 1])
  }

  // ---- which requests succeed, and what they do byte by byte ----

  /** A byte is the sum of its bits, the lowest one first. */
  lemma BitsOfByte(b: bv8)
    ensures b == (if GetBit(b, 0) then 1 else 0) + (if GetBit(b, 1) then 2 else 0) + (if GetBit(b, 2) then 4 else 0)
                 + (if GetBit(b, 3) then 8 else 0) + (if GetBit(b, 4) then 16 else 0) + (if GetBit(b, 5) then 32 else 0)
                 + (if GetBit(b, 6) then 64 else 0) + (if GetBit(b, 7) then 128 else 0)
  {}

  /**
   * The exact code of a request. A bit request for one byte, that is one bit, succeeds for every bit of its block; each
   * further byte it asks for must be there as well, although it is not used.
   */
  lemma StatusLaw(mem: Memory, r: Request)
    requires r.Readable()
    ensures Status(mem, r) == DataError <==> r.block !in mem
    ensures r.block in mem && r.bit ==>
              (Status(mem, r) == Success <==> r.offset + 8 * (r.count * r.elementSize - 1) < 8 * |mem[r.block]|)
    ensures r.block in mem && !r.bit ==>
              (Status(mem, r) == Success <==> r.offset + r.count * r.elementSize <= |mem[r.block]|)
    ensures r.block in mem && Status(mem, r) != Success ==> Status(mem, r) == OutOfRange
  {
    var size := r.count * r.elementSize;
    assert r.Size() == size;
  }

  /** Every bit that exists can be read alone, under its bit number. */
  lemma ReadBit(mem: Memory, a: BitAddress)
    requires Exists(mem, a)
    ensures Read(mem, Request(a.block, 8 * a.index + a.bit, 1, 1, true, [])) ==
            Answer(Success, [if GetBit(mem[a.block][a.index], a.bit) then 1 else 0])
  {
    hide GetBit;
    assert (8 * a.index + a.bit) / 8 == a.index && (8 * a.index + a.bit) % 8 == a.bit;
  }

  /** Every bit that exists can be written alone: it is set by the value one and cleared by all others. */
  lemma WriteBit(mem: Memory, a: BitAddress, value: bv8, other: BitAddress)
    requires Exists(mem, a) && Exists(mem, other)
    ensures var next := Write(mem, Request(a.block, 8 * a.index + a.bit, 1, 1, true, [value]));
            && SameShape(mem, next) && Exists(next, other)
            && GetBit(next[other.block][other.index], other.bit) ==
               if other == a then value == 1 else GetBit(mem[other.block][other.index], other.bit)
  {
    assert (8 * a.index + a.bit) / 8 == a.index && (8 * a.index + a.bit) % 8 == a.bit;
    SetBitLaw(mem[a.block][a.index], a.bit, value == 1, other.bit);
  }

  /** A request for bytes that are there reads each of them. */
  lemma ReadBytes(mem: Memory, r: Request, k: nat)
    requires r.block in mem && !r.bit && r.offset + r.count * r.elementSize <= |mem[r.block]| && k < r.count * r.elementSize
    ensures Read(mem, r).code == Success && |Read(mem, r).data| == r.count * r.elementSize
    ensures Read(mem, r).data[k] == mem[r.block][r.offset + k]
  {
    var size := r.count * r.elementSize;
    assert r.Size() == size;
  }

  /** A write of bytes that are there changes exactly these. */
  lemma WriteBytes(mem: Memory, w: Request, block: BlockId, k: nat)
    requires w.block in mem && !w.bit && w.offset + w.count * w.elementSize <= |mem[w.block]| && w.Writable()
    requires block in mem && k < |mem[block]|
    ensures SameShape(mem, Write(mem, w))
    ensures Write(mem, w)[block][k] ==
            if block == w.block && w.offset <= k < w.offset + w.count * w.elementSize then w.data[k - w.offset] else mem[block][k]
  {
    var size := w.count * w.elementSize;
    assert w.Size() == size;
  }

  // ---- the memory law ----

  /** One bit of one registered block. */
  datatype BitAddress = BitAddress(block: BlockId, index: nat, bit: nat)

  predicate Exists(mem: Memory, a: BitAddress) {
    a.block in mem && a.index < |mem[a.block]| && a.bit < 8
  }

  function BitAt(mem: Memory, a: BitAddress): bool
    requires Exists(mem, a)
  {
    GetBit(mem[a.block][a.index], a.bit)
  }

  predicate Covers(r: Request, a: BitAddress) {
    r.block == a.block && a.bit < 8 &&
    if r.bit then a.index == r.offset / 8 && a.bit == r.offset % 8
    else r.offset <= a.index < r.offset + r.Size()
  }

  /** The value a write puts on a bit it covers. */
  function Carried(w: Request, a: BitAddress): bool
    requires w.Writable() && Covers(w, a)
  {
    if w.bit then w.data[0] == 1 else GetBit(w.data[a.index - w.offset], a.bit)
  }

  /** Write w succeeds on mem and covers bit a. */
  predicate Hits(mem: Memory, w: Request, a: BitAddress) {
    Status(mem, w) == Success && Covers(w, a)
  }

  /** The value of the last successful write covering bit a, or the initial value when there is none. */
  function LastWrite(mem: Memory, ws: seq<Request>, a: BitAddress): bool
    requires Exists(mem, a) && forall w <- ws :: w.Writable()
  {
    if ws == [] then BitAt(mem, a)
    else if Hits(mem, ws[|ws| - 1], a) then Carried(ws[|ws| - 1], a)
    else LastWrite(mem, ws[..|ws| - 1], a)
  }

  /** Same registered blocks with the same lengths. */
  ghost predicate SameShape(m: Memory, n: Memory) {
    m.Keys == n.Keys && forall b <- m.Keys :: |m[b]| == |n[b]|
  }

  /** One write: only a successful one changes anything, and then exactly the bits it covers. */
  lemma WriteLaw(mem: Memory, w: Request, a: BitAddress)
    requires w.Writable()
    ensures SameShape(mem, Write(mem, w))
    ensures Exists(mem, a) ==>
              BitAt(Write(mem, w), a) == if Hits(mem, w, a) then Carried(w, a) else BitAt(mem, a)
  {
    if Exists(mem, a) && Status(mem, w) == Success && w.bit && w.block == a.block {
      SetBitLaw(mem[a.block][w.offset / 8], w.offset % 8, w.data[0] == 1, a.bit);
    }
  }

  /** After any list of writes each bit holds what the last successful write covering it put there. */
  lemma {:induction false} MemoryLaw(mem: Memory, ws: seq<Request>, a: BitAddress)
    requires forall w <- ws :: w.Writable()
    ensures SameShape(mem, Execute(mem, ws))
    ensures Exists(mem, a) ==> BitAt(Execute(mem, ws), a) == LastWrite(mem, ws, a)
  {
    if ws != [] {
      var before := ws[..|ws| - 1];
      MemoryLaw(mem, before, a);
      WriteLaw(Execute(mem, before), ws[|ws| - 1], a);
    }
  }

  lemma ExecuteKeepsShape(mem: Memory, ws: seq<Request>)
    requires forall w <- ws :: w.Writable()
    ensures SameShape(mem, Execute(mem, ws))
  {
    MemoryLaw(mem, ws, BitAddress(BlockId(DB, 0), 0, 0));
  }

  lemma ShapeDecides(m: Memory, n: Memory, r: Request)
    requires SameShape(m, n)
    ensures Status(m, r) == Status(n, r)
  {}

  /** A successful read returns, bit by bit, what the memory law says. */
  lemma ReadLaw(mem: Memory, ws: seq<Request>, r: Request, a: BitAddress)
    requires forall w <- ws :: w.Writable()
    requires r.Readable() && Hits(mem, r, a)
    ensures var answer := Read(Execute(mem, ws), r);
            && Exists(mem, a)
            && answer.code == Success
            && (if r.bit then answer.data == [if LastWrite(mem, ws, a) then 1 else 0]
                else |answer.data| == r.Size() && GetBit(answer.data[a.index - r.offset], a.bit) == LastWrite(mem, ws, a))
  {
    MemoryLaw(mem, ws, a);
    ShapeDecides(mem, Execute(mem, ws), r);
  }

  /** Blocks of the same shape that agree on every bit are equal. */
  lemma BitsDetermineMemory(m: Memory, n: Memory)
    requires SameShape(m, n)
    requires forall a: BitAddress | Exists(m, a) :: BitAt(m, a) == BitAt(n, a)
    ensures m == n
  {
    forall b | b in m ensures m[b] == n[b] {
      forall k | 0 <= k < |m[b]| ensures m[b][k] == n[b][k] {
        forall i | 0 <= i < 8 ensures GetBit(m[b][k], i) == GetBit(n[b][k], i) {
          assert Exists(m, BitAddress(b, k, i));
          assert BitAt(m, BitAddress(b, k, i)) == BitAt(n, BitAddress(b, k, i));
        }
        BitsDetermineByte(m[b][k], n[b][k]);
      }
    }
  }

  lemma {:induction false} ExecuteAppends(mem: Memory, ws: seq<Request>, us: seq<Request>)
    requires (forall w <- ws :: w.Writable()) && (forall u <- us :: u.Writable())
    ensures Execute(mem, ws + us) == Execute(Execute(mem, ws), us)
  {
    if us == [] {
      assert ws + us == ws;
    } else {
      ExecuteAppends(mem, ws, us[..|us| - 1]);
      assert (ws + us)[..|ws + us| - 1] == ws + us[..|us| - 1];
    }
  }

  // ---- the provider object ----

  /** One registered block; the rented memory may be longer than the registered length. */
  class PlcDataEntry {
    const length: u16
    const data: array<bv8>

    ghost predicate Valid() {
      length <= data.Length
    }

    ghost function Bytes(): seq<bv8>
      requires Valid()
      reads data
    {
      data[..length]
    }

    /** Uses the given memory when there is any, else rents `rented` fresh bytes. */
    constructor (length: u16, external: array<bv8>, rented: nat)
      requires length <= rented
      requires external.Length != 0 ==> length <= external.Length
      ensures Valid() && this.length == length
      ensures if external.Length != 0 then data == external else fresh(data)
    {
      this.length := length;
      if external.Length != 0 {
        this.data := external;
      } else {
        this.data := new bv8[rented];
      }
    }

    /** The answer to a read that is in range. */
    method Load(item: Request) returns (result: seq<bv8>)
      requires Valid() && item.Readable() && InRange(length, item)
      ensures result == Stored(Bytes(), item)
    {
      hide GetBit;
      if item.bit {
        result := [if GetBit(data[item.offset / 8], item.offset % 8) then 1 else 0];
      } else {
        result := data[item.offset..item.offset + item.Size()];
        Cut(data[..], length, item.offset, item.offset + item.Size());
        assert data[..][..length] == Bytes();
      }
    }

    /** Executes a write that is in range, in place. */
    method Store(item: Request)
      requires Valid() && item.Writable() && InRange(length, item)
      modifies data
      ensures Bytes() == Patch(old(Bytes()), item)
    {
      hide GetBit, SetBit;
      if item.bit {
        var byteOffset, bitNumber := item.offset / 8, item.offset % 8;
        data[byteOffset] := SetBit(data[byteOffset], bitNumber, item.data[0] == 1);
      } else {
        var size := item.Size();
        forall k | 0 <= k < size {
          data[item.offset + k] := item.data[k];
        }
      }
    }
  }

  lemma Cut(s: seq<bv8>, length: nat, from: nat, end: nat)
    requires from <= end <= length <= |s|
    ensures s[from..end] == s[..length][from..end]
  {}

  class SimulationPlcDataProvider {
    var plcData: map<BlockId, PlcDataEntry>

    /** The byte arrays behind the registered blocks. */
    ghost function Arrays(): set<array<bv8>>
      reads this
    {
      set b | b in plcData :: plcData[b].data
    }

    /** No two registered blocks share their bytes. */
    ghost predicate Valid()
      reads this
    {
      && (forall b | b in plcData :: plcData[b].Valid())
      && (forall b, c | b in plcData && c in plcData && b != c :: plcData[b].data != plcData[c].data)
    }

    ghost function Contents(): Memory
      requires Valid()
      reads this, Arrays()
    {
      map b | b in plcData :: plcData[b].Bytes()
    }

    constructor ()
      ensures Valid() && Contents() == map[] && Arrays() == {}
    {
      plcData := map[];
    }

    /** Adds a block unless there is one under that id; no other block changes. */
    method Register(block: BlockId, dataLength: u16, external: array<bv8>, rented: nat) returns (ok: bool)
      requires Valid() && external !in Arrays() && dataLength <= rented
      requires external.Length != 0 ==> dataLength <= external.Length
      modifies this
      ensures Valid()
      ensures ok == (block !in old(Contents()))
      ensures !ok ==> Contents() == old(Contents())
      ensures ok ==> block in Contents() && |Contents()[block]| == dataLength
      ensures ok ==> Contents() == old(Contents())[block := Contents()[block]]
      ensures ok && external.Length != 0 ==>
                plcData[block].data == external && Contents()[block] == external[..dataLength]
      ensures ok ==> Arrays() <= old(Arrays()) + {plcData[block].data} && (external.Length == 0 ==> fresh(plcData[block].data))
    {
      if block in plcData {
        return false;
      }
      var dataEntry := new PlcDataEntry(dataLength, external, rented);
      plcData := plcData[block := dataEntry];
      ok := true;
    }

    /** A block lives in its entry's memory, so later writes show in memory that the caller has given. */
    lemma Shared(block: BlockId)
      requires Valid() && block in plcData
      ensures plcData[block].data in Arrays() && block in Contents()
      ensures Contents()[block] == plcData[block].data[..plcData[block].length]
    {
      assert plcData[block].Bytes() == Contents()[block];
    }

    method ReadOne(item: Request) returns (result: Answer)
      requires Valid() && item.Readable()
      ensures result == Read(Contents(), item)
    {
      hide Stored;
      if item.block !in plcData {
        return Answer(DataError, []);
      }
      var dataEntry := plcData[item.block];
      assert dataEntry.Bytes() == Contents()[item.block];
      if (if item.bit then item.offset / 8 else item.offset) + item.count * item.elementSize > dataEntry.length {
        return Answer(OutOfRange, []);
      }
      var data := dataEntry.Load(item);
      result := Answer(Success, data);
    }

    method ReadAsync(readItems: seq<Request>) returns (result: seq<Answer>)
      requires Valid() && forall r <- readItems :: r.Readable()
      ensures |result| == |readItems|
      ensures forall i | 0 <= i < |readItems| :: result[i] == Read(Contents(), readItems[i])
    {
      hide Read;
      ghost var mem := Contents();
      result := [];
      for i := 0 to |readItems|
        invariant |result| == i && Contents() == mem
        invariant forall j | 0 <= j < i :: result[j] == Read(mem, readItems[j])
      {
        var answer := ReadOne(readItems[i]);
        result := result + [answer];
      }
    }

    /** Executes one write in place. */
    method WriteOne(item: Request) returns (code: ReturnCode)
      requires Valid() && item.Writable()
      modifies Arrays()
      ensures Valid() && code == Status(old(Contents()), item)
      ensures Contents() == Write(old(Contents()), item)
    {
      hide Patch;
      if item.block !in plcData {
        return DataError;
      }
      var dataEntry := plcData[item.block];
      assert dataEntry.data in Arrays();
      assert dataEntry.Bytes() == Contents()[item.block];
      if (if item.bit then item.offset / 8 else item.offset) + item.count * item.elementSize > dataEntry.length {
        return OutOfRange;
      }
      dataEntry.Store(item);
      code := Success;
    }

    method WriteAsync(writeItems: seq<Request>) returns (result: seq<ReturnCode>)
      requires Valid() && forall w <- writeItems :: w.Writable()
      modifies Arrays()
      ensures Valid() && Contents() == Execute(old(Contents()), writeItems)
      ensures |result| == |writeItems|
      ensures forall i | 0 <= i < |writeItems| :: result[i] == Status(old(Contents()), writeItems[i])
    {
      hide Write, Status;
      result := [];
      ghost var before := Contents();
      for i := 0 to |writeItems|
        invariant Valid() && Contents() == Execute(before, writeItems[..i])
        invariant |result| == i
        invariant forall j | 0 <= j < i :: result[j] == Status(before, writeItems[j])
      {
        ExecuteKeepsShape(before, writeItems[..i]);
        ShapeDecides(before, Contents(), writeItems[i]);
        assert writeItems[..i + 1][..i] == writeItems[..i];
        var code := WriteOne(writeItems[i]);
        result := result + [code];
      }
      assert writeItems[..|writeItems|] == writeItems;
    }

    /** Registers a block in the caller's memory and writes: what the PLC holds is what the caller sees. */
    method WriteExternal(block: BlockId, external: array<bv8>, dataLength: u16, writeItems: seq<Request>)
      returns (result: seq<ReturnCode>)
      requires Valid() && block !in Contents() && external !in Arrays() && 0 < dataLength <= external.Length
      requires forall w <- writeItems :: w.Writable()
      modifies this, Arrays(), external
      ensures Valid() && block in Contents() && external[..dataLength] == Contents()[block]
      ensures Contents() == Execute(old(Contents())[block := old(external[..dataLength])], writeItems)
    {
      var ok := Register(block, dataLength, external, dataLength);
      result := WriteAsync(writeItems);
      Shared(block);
    }
  }
}
