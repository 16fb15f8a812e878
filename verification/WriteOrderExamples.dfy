/** Requests on which the order of the writes shows, all with a PDU of 240 bytes. */
module WriteOrderExamples {
  import opened Basics
  import opened Plc
  import opened Packing
  import opened Generator
  import opened Coverage
  import opened PackingOrder
  import opened AnyData
  import opened WriteCodes
  import opened WriteMemory
  import opened WriteOrder

  const PDU_240 := Rules(Writing, 240)

  /** So many bytes of one value, from an offset of data block 1 on. */
  function Bytes(id: nat, offset: nat, count: u16, value: bv8): Item {
    Item(id, BlockId(DB, 1), offset, count, 1, false, seq(count, _ => value))
  }

  /** Data block 1 with so many bytes. */
  function Block(size: nat): Memory { map[BlockId(DB, 1) := seq(size, _ => 0)] }

  function FirstBitOf(index: nat): BitAddress { BitAddress(BlockId(DB, 1), index, 0) }

  lemma BytesAccepted(id: nat, offset: nat, count: u16, value: bv8)
    requires offset + count <= 0x1_0000
    ensures var x := Bytes(id, offset, count, value);
            x.Writable() && SplitSafe(PDU_240, x) && Terminates(PDU_240, x) && Packable(PDU_240, x)
  {
    if count > MaxLength(PDU_240) {
      LastSlicePositive(count, MaxLength(PDU_240));
    }
  }

  lemma {:induction false} LastSlicePositive(count: nat, max: nat)
    requires 0 < max < count
    ensures LastSlice(count, max) > 0
  {
    if count - max > max {
      LastSlicePositive(count - max, max);
    }
  }

  lemma BytesHit(size: nat, id: nat, offset: nat, count: u16, value: bv8, index: nat)
    ensures var x := Bytes(id, offset, count, value);
            && (ItemHits(Block(size), x, FirstBitOf(index)) <==> offset <= index < offset + count <= size)
            && (ItemHits(Block(size), x, FirstBitOf(index)) ==> x.Writable() && ItemValue(x, FirstBitOf(index)) == GetBit(value, 0))
  {
    hide GetBit;
  }

  lemma LowBits()
    ensures GetBit(1, 0) && !GetBit(2, 0) && !GetBit(0, 0)
  {}

  /** One byte and then two bytes at the same offset: the byte wins although it was requested first. */
  lemma ShorterWinsExample()
    ensures var vars := [Bytes(0, 0, 1, 1), Bytes(1, 0, 2, 2)];
            Accepted(PDU_240, vars) && !KeepsOrder(Block(2), PDU_240, vars)
  {
    hide KeepsOrder, GetBit, ItemHits, ItemValue, Item.Writable, SplitSafe, Terminates, Packable, SecondTravelsLast, Slices;
    var x, y, a := Bytes(0, 0, 1, 1), Bytes(1, 0, 2, 2), FirstBitOf(0);
    BytesAccepted(0, 0, 1, 1);
    BytesAccepted(1, 0, 2, 2);
    assert Accepted(PDU_240, [x, y]);
    BytesHit(2, 0, 0, 1, 1, 0);
    BytesHit(2, 1, 0, 2, 2, 0);
    LowBits();
    TwoItemsIff(Block(2), PDU_240, x, y);
    UncutPair(Block(2), PDU_240, x, y, a);
  }

  /** The tail of an item that is cut wins over an item that fills a telegram, although that one was requested last. */
  lemma TailWinsExample()
    ensures var x, y := Bytes(0, 0, 222, 1), Bytes(1, 212, 212, 2);
            && Accepted(PDU_240, [x, y]) && Clean(Block(424), PDU_240, x) && Clean(Block(424), PDU_240, y)
            && Pieces(PDU_240, [x, y]) == [Part(x, 0, 212), Whole(y), Part(x, 212, 10)]
            && !KeepsOrder(Block(424), PDU_240, [x, y])
  {
    hide KeepsOrder, GetBit, ItemHits, ItemValue, Item.Writable, SplitSafe, Terminates, Packable, Pieces, SecondTravelsLast,
         Slices, Overtaken, TwoItems;
    var x, y, a := Bytes(0, 0, 222, 1), Bytes(1, 212, 212, 2), FirstBitOf(212);
    BytesAccepted(0, 0, 222, 1);
    BytesAccepted(1, 212, 212, 2);
    assert Accepted(PDU_240, [x, y]) && forall z <- [x, y] :: Terminates(PDU_240, z) && Packable(PDU_240, z);
    PairTravels(PDU_240, x, y);
    TailSlices(x, y);
    BytesHit(424, 0, 0, 222, 1, 212);
    BytesHit(424, 1, 212, 212, 2, 212);
    LowBits();
    TwoItemsIff(Block(424), PDU_240, x, y);
    TailTouches(x, y);
    assert BothWritten(Block(424), x, y, a);
  }

  lemma TailSlices(x: Item, y: Item)
    requires x.offset == 0 && x.count == 222 && y.count == 212
    ensures Slices(x, 212) == [Part(x, 0, 212), Part(x, 212, 10)] && Slices(y, 212) == [Whole(y)]
    ensures !Fills(PDU_240, 10) && Overtaken(PDU_240, x, y)
    ensures TwoItems(PDU_240, x, y) == [Part(x, 0, 212), Whole(y), Part(x, 212, 10)]
  {
    assert SlicesFrom(x, 212, 212) == [Part(x, 212, 10)] + SlicesFrom(x, 212, 222);
  }

  lemma TailTouches(x: Item, y: Item)
    requires x == Bytes(0, 0, 222, 1) && y == Bytes(1, 212, 212, 2)
    requires Slices(x, 212) == [Part(x, 0, 212), Part(x, 212, 10)] && Slices(y, 212) == [Whole(y)]
    requires !Fills(PDU_240, 10) && Overtaken(PDU_240, x, y)
    ensures !SecondTravelsLast(PDU_240, x, y, FirstBitOf(212))
  {
    hide Slices, Fills, Overtaken;
  }

  /** One byte, two bytes over it and another byte over both keep their order, although the first is overtaken. */
  lemma ShieldedExample()
    ensures var vars := [Bytes(0, 0, 1, 1), Bytes(1, 0, 2, 2), Bytes(2, 0, 1, 3)];
            Accepted(PDU_240, vars) && !NoLongerLater(vars) && AnyDataKeepsOrder(Block(2), PDU_240, vars)
  {
    hide KeepsOrder, AnyDataKeepsOrder, Item.Writable, SplitSafe, Terminates, Packable, Share, OrderByDescending, WriteTotal;
    var x, y, z := Bytes(0, 0, 1, 1), Bytes(1, 0, 2, 2), Bytes(2, 0, 1, 3);
    var vars := [x, y, z];
    BytesAccepted(0, 0, 1, 1);
    BytesAccepted(1, 0, 2, 2);
    BytesAccepted(2, 0, 1, 3);
    assert Accepted(PDU_240, vars);
    SmallItemsHaveRoom(vars);
    assert Share(Whole(x), Whole(y)) by { SharedByte(x, y); }
    forall a: BitAddress | Exists(Block(2), a) ensures LastIsShortest(Block(2), vars, a) {
      assert ItemHits(Block(2), vars[0], a) ==> ItemHits(Block(2), vars[2], a);
    }
    RoomForAllIff(Block(2), PDU_240, vars);
    assert vars[0].count < vars[1].count && Share(Whole(vars[0]), Whole(vars[1]));
  }

  lemma SharedByte(x: Item, y: Item)
    requires x.block == y.block && x.offset == y.offset && !x.bit && !y.bit && x.count > 0 && y.count > 0
    requires x.elementSize == y.elementSize == 1
    ensures Share(Whole(x), Whole(y))
  {}

  lemma {:induction false} SmallTotals(items: seq<Item>)
    requires forall x <- items :: x.count <= 2
    ensures WriteTotal(Wholes(items)) <= 12 + 19 * |items|
  {
    hide WriteTotal, Even;
    if items == [] {
      HeadersCount([]);
      assert Wholes(items) == [];
    } else {
      var init, last := items[..|items| - 1], items[|items| - 1];
      assert items == init + [last];
      SmallTotals(init);
      WholesAppend(init, last);
      OneMoreTotal(Wholes(init), Whole(last));
      EvenBounds(WriteTotal(Wholes(init)));
    }
  }

  lemma SmallItemsHaveRoom(vars: seq<Item>)
    requires |vars| <= 12 && forall x <- vars :: x.count <= 2
    ensures RoomForAll(PDU_240, OrderByDescending(vars))
  {
    hide WriteTotal, OrderByDescending;
    SortedKeepsItems(vars);
    assert |multiset(OrderByDescending(vars))| == |multiset(vars)|;
    SmallTotals(OrderByDescending(vars));
  }

  lemma LastWins(mem: Memory, pieces: seq<Piece>, x: Item, a: BitAddress)
    requires Sendable(pieces) && pieces != [] && pieces[|pieces| - 1] == Whole(x) && ItemHits(mem, x, a)
    ensures Winner(mem, pieces, a) == Some(x)
  {}

  /** Another item travels last than is requested last, and they carry different values. */
  lemma OtherLast(mem: Memory, vars: seq<Item>, x: Item, y: Item, a: BitAddress)
    requires Accepted(PDU_240, vars) && vars != [] && vars[|vars| - 1] == y && ItemHits(mem, y, a)
    requires Pieces(PDU_240, vars) != [] && Pieces(PDU_240, vars)[|Pieces(PDU_240, vars)| - 1] == Whole(x) && ItemHits(mem, x, a)
    requires x.Writable() && y.Writable() && ItemValue(x, a) != ItemValue(y, a)
    ensures !KeepsOrder(mem, PDU_240, vars)
  {
    hide Pieces, Sendable, Winner, Execute, Requests, Covers, Status, ItemValue, Item.Writable;
    AllSendable(PDU_240, vars);
    BothExist(mem, x, y, a);
    LastWins(mem, Pieces(PDU_240, vars), x, a);
    LastWins(mem, Wholes(vars), y, a);
    WriteOrderIff(mem, PDU_240, vars);
  }

  /** Running one more item that is not cut. */
  lemma RunOn(items: seq<Item>, x: Item, st: State, next: State)
    requires (forall y <- items + [x] :: Terminates(PDU_240, y)) && x.count <= 212
    requires Run(PDU_240, items) == st && !st.failed && Place(PDU_240, st, Whole(x)) == next
    ensures Run(PDU_240, items + [x]) == next
  {
    assert (items + [x])[..|items|] == items;
  }

  /** What is accepted by a package and what fills it. */
  lemma Space(package: Package, p: Piece)
    ensures Accepts(PDU_240, package, p) <==> Even(WriteTotal(package)) + 16 + p.Count() <= 240
    ensures Full(PDU_240, package) <==> Even(WriteTotal(package)) > 223
    ensures WriteTotal(package + [p]) == Even(WriteTotal(package)) + 16 + p.Count()
    ensures WriteTotal([p]) == 28 + p.Count()
  {
    OneMoreTotal(package, p);
    OneMoreTotal([], p);
    assert [] + [p] == [p];
  }

  lemma FirstFitTwo(p: Package, q: Package, piece: Piece)
    ensures FirstFit(PDU_240, [p, q], piece) ==
            if Accepts(PDU_240, p, piece) then 0 else if Accepts(PDU_240, q, piece) then 1 else 2
  {
    hide Accepts;
    assert [p, q][1..] == [q];
    FirstFitOne(PDU_240, q, piece);
  }

  /** A short item that still fits into the first package overtakes a longer one that does not, and the longer one wins. */
  lemma LongerWinsExample()
    ensures var x, y, z := Bytes(0, 0, 150, 0), Bytes(1, 200, 150, 1), Bytes(2, 200, 20, 2);
            && Accepted(PDU_240, [x, y, z]) && Pieces(PDU_240, [x, y, z]) == [Whole(x), Whole(z), Whole(y)]
            && !KeepsOrder(Block(400), PDU_240, [x, y, z])
  {
    hide KeepsOrder, GetBit, ItemHits, ItemValue, Item.Writable, SplitSafe, Terminates, Packable, Pieces;
    var x, y, z, a := Bytes(0, 0, 150, 0), Bytes(1, 200, 150, 1), Bytes(2, 200, 20, 2), FirstBitOf(200);
    BytesAccepted(0, 0, 150, 0);
    BytesAccepted(1, 200, 150, 1);
    BytesAccepted(2, 200, 20, 2);
    assert Accepted(PDU_240, [x, y, z]) && forall v <- [x, y, z] :: Terminates(PDU_240, v);
    LongerTravelsLast(x, y, z);
    BytesHit(400, 1, 200, 150, 1, 200);
    BytesHit(400, 2, 200, 20, 2, 200);
    LowBits();
    OtherLast(Block(400), [x, y, z], y, z, a);
  }

  lemma LongerTravelsLast(x: Item, y: Item, z: Item)
    requires x.count == 150 && y.count == 150 && z.count == 20 && forall v <- [x, y, z] :: Terminates(PDU_240, v)
    ensures Pieces(PDU_240, [x, y, z]) == [Whole(x), Whole(z), Whole(y)]
  {
    hide Accepts, Full, WriteTotal, FirstFit, Run, Terminates, OrderByDescending, Place, Flat;
    var p, q, r := Whole(x), Whole(y), Whole(z);
    AlreadySorted([x, y, z]);
    Space([], p);
    Space([], q);
    Space([p], q);
    Space([p], r);
    Space([p, r], r);
    PlaceFirst(PDU_240, [], p);
    RunStarts(PDU_240, [x]);
    assert [x][..0] == [] && [] + [x] == [x] && [x] + [y] == [x, y] && [x, y] + [z] == [x, y, z];
    RunOn([], x, State([], [], false), State([[p]], [], false));
    FirstFitOne(PDU_240, [p], q);
    PlaceNew(State([[p]], [], false), q);
    assert [[p]] + [[q]] == [[p], [q]];
    RunOn([x], y, State([[p]], [], false), State([[p], [q]], [], false));
    FirstFitTwo([p], [q], r);
    PlaceBehind(State([[p], [q]], [], false), 0, r);
    assert [p] + [r] == [p, r] && [[p], [q]][0 := [p, r]] == [[p, r], [q]];
    RunOn([x, y], z, State([[p], [q]], [], false), State([[p, r], [q]], [], false));
    assert [] + [[p, r], [q]] == [[p, r], [q]] && [[p, r], [q]] == [[p, r]] + [[q]];
    FlatAppends([[p, r]], [[q]]);
    FlatOne([p, r]);
    FlatOne([q]);
  }

  lemma PlaceNew(st: State, p: Piece)
    requires FirstFit(PDU_240, st.open, p) == |st.open| && p.Count() <= 194
    ensures Place(PDU_240, st, p) == st.(open := st.open + [[p]])
  {
    hide Accepts, Full, FirstFit, Even, WriteTotal, Place;
    Space([], p);
    Space([p], p);
    SmallEven(p.Count());
    StartPlaces(PDU_240, st, p);
  }

  lemma SmallEven(count: u16)
    requires count <= 194
    ensures Even(28 + count) <= 223 && Even(WriteTotal([])) == 12
  {}

  lemma PlaceBehind(st: State, k: nat, p: Piece)
    requires k < |st.open| && FirstFit(PDU_240, st.open, p) == k
    ensures var grown := st.open[k] + [p];
            Place(PDU_240, st, p) ==
              if Full(PDU_240, grown) then st.(open := Without(st.open, k), yielded := st.yielded + [grown])
              else st.(open := st.open[k := grown])
  {
    hide Full, Accepts;
    assert Without(st.open[k := st.open[k] + [p]], k) == Without(st.open, k);
  }

  /**
   * Items of equal length do not always travel in order: the second telegram fills up and is sent while the first one,
   * which holds a longer item and one of the equal ones, is still open.
   */
  lemma EqualLengthsExample()
    ensures var v, x, y := Bytes(0, 0, 120, 0), Bytes(1, 200, 58, 1), Bytes(2, 300, 58, 0);
            var z, w := Bytes(3, 400, 58, 0), Bytes(4, 200, 58, 2);
            && Accepted(PDU_240, [v, x, y, z, w])
            && Pieces(PDU_240, [v, x, y, z, w]) == [Whole(y), Whole(z), Whole(w), Whole(v), Whole(x)]
            && !KeepsOrder(Block(500), PDU_240, [v, x, y, z, w])
  {
    hide KeepsOrder, GetBit, ItemHits, ItemValue, Item.Writable, SplitSafe, Terminates, Packable, Pieces;
    var v, x, y := Bytes(0, 0, 120, 0), Bytes(1, 200, 58, 1), Bytes(2, 300, 58, 0);
    var z, w := Bytes(3, 400, 58, 0), Bytes(4, 200, 58, 2);
    BytesAccepted(0, 0, 120, 0);
    BytesAccepted(1, 200, 58, 1);
    BytesAccepted(2, 300, 58, 0);
    BytesAccepted(3, 400, 58, 0);
    BytesAccepted(4, 200, 58, 2);
    assert Accepted(PDU_240, [v, x, y, z, w]) && forall u <- [v, x, y, z, w] :: Terminates(PDU_240, u);
    EqualLengthsOvertake(v, x, y, z, w);
    BytesHit(500, 1, 200, 58, 1, 200);
    BytesHit(500, 4, 200, 58, 2, 200);
    LowBits();
    OtherLast(Block(500), [v, x, y, z, w], x, w, FirstBitOf(200));
  }

  lemma EqualLengthsOvertake(v: Item, x: Item, y: Item, z: Item, w: Item)
    requires v.count == 120 && x.count == y.count == z.count == w.count == 58
    requires forall u <- [v, x, y, z, w] :: Terminates(PDU_240, u)
    ensures Pieces(PDU_240, [v, x, y, z, w]) == [Whole(y), Whole(z), Whole(w), Whole(v), Whole(x)]
  {
    hide Accepts, Full, WriteTotal, FirstFit, Run, Terminates, OrderByDescending, Place;
    var p, q, r, s, t := Whole(v), Whole(x), Whole(y), Whole(z), Whole(w);
    AlreadySorted([v, x, y, z, w]);
    RunFirstTwo(v, x);
    assert [v, x] + [y] == [v, x, y] && [v, x, y] + [z] == [v, x, y, z] && [v, x, y, z] + [w] == [v, x, y, z, w];
    var first := State([[p, q]], [], false);
    Space([p], q);
    Space([p, q], r);
    Space([p, q], s);
    Space([p, q], t);
    FirstFitOne(PDU_240, [p, q], r);
    PlaceNew(first, r);
    RunOn([v, x], y, first, State([[p, q], [r]], [], false));
    RunLastTwo([v, x, y], [p, q], r, z, w);
    assert [[r, s, t]] + [[p, q]] == [[r, s, t], [p, q]];
    FlatAppends([[r, s, t]], [[p, q]]);
    FlatOne([r, s, t]);
    FlatOne([p, q]);
  }

  lemma RunFirstTwo(v: Item, x: Item)
    requires v.count == 120 && x.count == 58 && Terminates(PDU_240, v) && Terminates(PDU_240, x)
    ensures Run(PDU_240, [v, x]) == State([[Whole(v), Whole(x)]], [], false)
    ensures WriteTotal([Whole(v), Whole(x)]) == 222
  {
    hide Accepts, Full, WriteTotal, FirstFit, Run, Terminates, Place;
    var p, q := Whole(v), Whole(x);
    Space([], p);
    Space([p], q);
    Space([p, q], q);
    assert [] + [v] == [v] && [v] + [x] == [v, x] && [p] + [q] == [p, q] && [v][..0] == [];
    RunStarts(PDU_240, [v]);
    PlaceFirst(PDU_240, [], p);
    RunOn([], v, State([], [], false), State([[p]], [], false));
    FirstFitOne(PDU_240, [p], q);
    PlaceBehind(State([[p]], [], false), 0, q);
    assert [[p]][0 := [p, q]] == [[p, q]];
    RunOn([v], x, State([[p]], [], false), State([[p, q]], [], false));
  }

  /** Two more items of the same length fill the second package, which is yielded first. */
  lemma RunLastTwo(items: seq<Item>, front: Package, r: Piece, z: Item, w: Item)
    requires (forall u <- items + [z] + [w] :: Terminates(PDU_240, u)) && r.Count() == z.count == w.count == 58
    requires WriteTotal(front) == 222 && Run(PDU_240, items) == State([front, [r]], [], false)
    ensures Run(PDU_240, items + [z] + [w]) == State([front], [[r, Whole(z), Whole(w)]], false)
  {
    hide Accepts, Full, WriteTotal, FirstFit, Run, Terminates, Place;
    var s, t := Whole(z), Whole(w);
    assert [r] + [s] == [r, s] && [r, s] + [t] == [r, s, t];
    Space([], r);
    Space(front, s);
    Space(front, t);
    Space([r], s);
    Space([r, s], t);
    Space([r, s, t], t);
    FirstFitTwo(front, [r], s);
    PlaceBehind(State([front, [r]], [], false), 1, s);
    assert [front, [r]][1 := [r, s]] == [front, [r, s]];
    RunOn(items, z, State([front, [r]], [], false), State([front, [r, s]], [], false));
    FirstFitTwo(front, [r, s], t);
    PlaceBehind(State([front, [r, s]], [], false), 1, t);
    assert Without([front, [r, s]], 1) == [front];
    RunOn(items + [z], w, State([front, [r, s]], [], false), State([front], [[r, s, t]], false));
  }
}
