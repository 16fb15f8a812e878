/** How requested items are cut into pieces and packed into telegrams of at most one PDU. */
module Packing {
  import opened Basics
  import opened Plc

  /** A requested item; `id` stands for the identity of the object. Read items carry no data. */
  datatype Item = Item(id: nat, block: BlockId, offset: nat, count: u16, elementSize: ElementSize, bit: bool, data: seq<bv8>) {
    predicate Readable() { bit ==> count == 1 && elementSize == 1 }

    /** What the creation of a write item checks. */
    predicate Writable() { Readable() && |data| == count * elementSize }

    lemma DataPerUnit()
      requires Writable()
      ensures |data| >= count
    {
      assert count * elementSize >= count;
    }
  }

  /** What travels in a telegram: an item, or a child that reads or writes a part of its parent. */
  datatype Piece =
    | Whole(item: Item)
    | Part(item: Item, start: nat, length: u16)
  {
    function Offset(): nat { if Whole? then item.offset else start }

    function Count(): u16 { if Whole? then item.count else length }

    /** The child's data starts where the child starts inside the parent. */
    predicate HasData() { Part? ==> item.offset <= start && start - item.offset + length <= |item.data| }

    function ReadRequest(): Request { Request(item.block, Offset(), Count(), item.elementSize, item.bit, []) }

    function WriteRequest(): Request
      requires HasData()
    {
      Request(item.block, Offset(), Count(), item.elementSize, item.bit,
              if Whole? then item.data else item.data[start - item.offset..][..length])
    }
  }

  type Package = seq<Piece>

  // ---- sizes, as the packages account for them: one unit per element, whatever the size of an element ----

  const READ_HEADERS := 12       // ReadHeader + ReadParameter
  const READ_ITEM_SIZE := 12
  const READ_ACK_HEADERS := 14   // ReadAckHeader + ReadAckParameter
  const READ_ITEM_ACK_HEADER := 4
  const WRITE_HEADERS := 12      // WriteHeader + WriteParameter
  const WRITE_ITEM_HEADER := 16  // WriteParameterItem + WriteDataItem

  datatype Kind = Reading | Writing

  /** The job kind and the negotiated PDU size. */
  datatype Rules = Rules(kind: Kind, pdu: u16)

  /** Longest item one telegram can carry, truncated to 16 bits as the program does. */
  function MaxLength(rules: Rules): u16 {
    (rules.pdu - (if rules.kind.Reading? then READ_ACK_HEADERS + READ_ITEM_ACK_HEADER else WRITE_HEADERS + WRITE_ITEM_HEADER)) % 0x1_0000
  }

  function Payload(package: Package): nat {
    if package == [] then 0 else Payload(package[..|package| - 1]) + package[|package| - 1].Count()
  }

  function RequestTotal(package: Package): nat { READ_HEADERS + READ_ITEM_SIZE * |package| }

  function ResponseTotal(package: Package): nat {
    READ_ACK_HEADERS + Payload(package) + READ_ITEM_ACK_HEADER * |package|
  }

  /** Each item starts at an even position; the last one is not padded. */
  function WriteTotal(package: Package): nat {
    if package == [] then WRITE_HEADERS
    else Even(WriteTotal(package[..|package| - 1])) + WRITE_ITEM_HEADER + package[|package| - 1].Count()
  }

  function Even(n: nat): nat { if n % 2 != 0 then n + 1 else n }

  lemma EvenShift(half: nat, n: nat)
    ensures Even(2 * half + n) == 2 * half + Even(n)
  {}

  /** The `Size` property of a package. */
  function Size(rules: Rules, package: Package): nat {
    if rules.kind.Writing? then Even(WriteTotal(package))
    else if package == [] then 0
    else Max(RequestTotal(package), ResponseTotal(package))
  }

  /** The check made by TryAdd. For reads it compares the cumulative size with the remaining space. */
  predicate Accepts(rules: Rules, package: Package, piece: Piece) {
    rules.pdu - Size(rules, package) >=
      if rules.kind.Writing? then WRITE_ITEM_HEADER + piece.Count()
      else Max(RequestTotal(package + [piece]), ResponseTotal(package + [piece]))
  }

  predicate Full(rules: Rules, package: Package) {
    rules.pdu - Size(rules, package) < if rules.kind.Writing? then WRITE_ITEM_HEADER + 1 else READ_ITEM_SIZE
  }

  /** A package filled by successful TryAdd calls only. */
  predicate Filled(rules: Rules, package: Package) {
    package == [] ||
    (Filled(rules, package[..|package| - 1]) && Accepts(rules, package[..|package| - 1], package[|package| - 1]))
  }

  /** A filled package's totals are within the PDU: reads with both telegrams, writes up to the final padding byte. */
  lemma {:induction false} FilledFits(rules: Rules, package: Package)
    requires Filled(rules, package) && package != []
    ensures rules.kind.Reading? ==> RequestTotal(package) <= rules.pdu && ResponseTotal(package) <= rules.pdu
    ensures rules.kind.Reading? ==> Size(rules, package) <= rules.pdu
    ensures rules.kind.Writing? ==> WriteTotal(package) <= rules.pdu && Size(rules, package) % 2 == 0
    ensures rules.kind.Writing? ==> Size(rules, package) <= rules.pdu + 1
    ensures rules.kind.Writing? && Size(rules, package) > rules.pdu ==> rules.pdu % 2 == 1
  {
    var before, last := package[..|package| - 1], package[|package| - 1];
    assert before + [last] == package;
    assert Accepts(rules, before, last);
    if rules.kind.Writing? {
      assert WriteTotal(package) == Even(WriteTotal(before)) + WRITE_ITEM_HEADER + last.Count();
    }
  }

  // ---- cutting ----

  /** Creates the child for `length` units from `done` on; a write child's start is cast to 16 bits first. */
  function Child(rules: Rules, item: Item, done: nat, length: u16): Option<Piece> {
    if rules.kind.Reading? || item.offset + done < 0x1_0000 then Some(Part(item, item.offset + done, length))
    else None  // the cast start lies before the item, so slicing its data throws
  }

  /** The pieces an item is cut into, from unit `done` on. */
  function SlicesFrom(item: Item, max: u16, done: nat): seq<Piece>
    requires max > 0 && done <= item.count
    decreases item.count - done
  {
    if done == item.count then []
    else
      var slice := Min(max, item.count - done);
      [Part(item, item.offset + done, slice)] + SlicesFrom(item, max, done + slice)
  }

  function Slices(item: Item, max: u16): seq<Piece> {
    if item.count <= max then [Whole(item)]
    else if max == 0 then [] else SlicesFrom(item, max, 0)
  }

  /** The pieces are in strictly increasing order, leave no gap, do not overlap and end at `end`. */
  predicate Tiles(pieces: seq<Piece>, from: nat, end: nat) {
    if pieces == [] then from == end
    else pieces[0].Offset() == from && (|pieces| > 1 ==> pieces[0].Count() > 0) && Tiles(pieces[1..], from + pieces[0].Count(), end)
  }

  lemma {:induction false} SlicesFromTile(item: Item, max: u16, done: nat)
    requires max > 0 && done <= item.count
    ensures Tiles(SlicesFrom(item, max, done), item.offset + done, item.offset + item.count)
    ensures forall p <- SlicesFrom(item, max, done) :: p.Part? && p.item == item && 0 < p.length <= max
    ensures forall p <- SlicesFrom(item, max, done) :: item.offset + done <= p.start && p.start + p.length <= item.offset + item.count
    decreases item.count - done
  {
    if done < item.count {
      SlicesFromTile(item, max, done + Min(max, item.count - done));
    }
  }

  /** An item's pieces cover exactly its range, each with at most the maximum length. */
  lemma SlicesTile(item: Item, max: u16)
    requires max > 0 || item.count == 0
    ensures Tiles(Slices(item, max), item.offset, item.offset + item.count)
    ensures forall p <- Slices(item, max) :: p.item == item && p.Count() <= max
    ensures forall p <- Slices(item, max) :: item.offset <= p.Offset() && p.Offset() + p.Count() <= item.offset + item.count
  {
    if item.count > max {
      SlicesFromTile(item, max, 0);
    }
  }

  /** Length of an item's last slice. */
  function LastSlice(count: nat, max: nat): (length: nat)
    requires max > 0
    ensures length <= count && length <= max
  {
    if count <= max then count else LastSlice(count - max, max)
  }
}
