/** When overlapping items of one call are written in the order in which they are requested. */
module WriteOrder {
  import opened Basics
  import opened Plc
  import opened Packing
  import opened Generator
  import opened Coverage
  import opened PackingOrder
  import opened AnyData
  import opened WriteCodes
  import opened WriteMemory

  // ---- every choice of data ----

  /** The items are different objects. */
  ghost predicate DistinctIds(vars: seq<Item>) {
    forall i, j :: 0 <= i < j < |vars| ==> vars[i].id != vars[j].id
  }

  /** The call leaves the memory that whole writes in request order leave. */
  ghost predicate KeepsOrder(mem: Memory, rules: Rules, vars: seq<Item>)
    requires Accepted(rules, vars)
  {
    AllSendable(rules, vars);
    Execute(mem, Requests(Pieces(rules, vars))) == Execute(mem, Requests(Wholes(vars)))
  }

  lemma OtherAt(vars: seq<Item>, other: seq<Item>, i: nat)
    requires OtherData(vars, other) && i < |vars|
    ensures |vars| == |other| && Bare(vars[i]) == Bare(other[i]) && |vars[i].data| == |other[i].data|
    ensures vars[i].id == other[i].id
  {
    assert |BareItems(vars)| == |vars| && |BareItems(other)| == |other|;
    assert Bare(vars[i]) == BareItems(vars)[i] == BareItems(other)[i] == Bare(other[i]);
  }

  lemma OtherAccepted(rules: Rules, vars: seq<Item>, other: seq<Item>)
    requires Accepted(rules, vars) && DistinctIds(vars) && OtherData(vars, other)
    ensures Accepted(rules, other) && DistinctIds(other)
  {
    hide OtherData, LastSlice, MaxLength;
    forall i | 0 <= i < |vars|
      ensures |vars| == |other| && Bare(vars[i]) == Bare(other[i]) && |vars[i].data| == |other[i].data| && vars[i] in vars
    {
      OtherAt(vars, other, i);
    }
    assert |BareItems(vars)| == |vars| && |BareItems(other)| == |other|;
    SameLength(vars, other);
    forall x | x in other ensures x.Writable() && SplitSafe(rules, x) && Terminates(rules, x) && Packable(rules, x) {
      var i :| 0 <= i < |other| && other[i] == x;
    }
  }

  lemma SameLength(vars: seq<Item>, other: seq<Item>)
    requires OtherData(vars, other)
    ensures |vars| == |other|
  {
    assert |BareItems(vars)| == |vars| && |BareItems(other)| == |other|;
  }

  lemma SameHit(mem: Memory, p: Piece, q: Piece, a: BitAddress)
    requires p.HasData() && q.HasData() && BarePiece(p) == BarePiece(q)
    ensures Hits(mem, p.WriteRequest(), a) == Hits(mem, q.WriteRequest(), a)
  {
    hide BarePiece;
    BareFields(p, q);
  }

  lemma BareFields(p: Piece, q: Piece)
    requires BarePiece(p) == BarePiece(q)
    ensures Bare(p.item) == Bare(q.item) && p.Whole? == q.Whole? && p.Offset() == q.Offset() && p.Count() == q.Count()
    ensures p.item.block == q.item.block && p.item.elementSize == q.item.elementSize && p.item.bit == q.item.bit
    ensures p.item.id == q.item.id
  {
    assert BarePiece(p).item == Bare(p.item) && BarePiece(q).item == Bare(q.item);
    assert BarePiece(p).Whole? == p.Whole? && BarePiece(q).Whole? == q.Whole?;
    assert BarePiece(p).Offset() == p.Offset() && BarePiece(q).Offset() == q.Offset();
    assert BarePiece(p).Count() == p.Count() && BarePiece(q).Count() == q.Count();
  }

  /** The same piece decides a bit, whatever the data. */
  lemma SameLastHit(mem: Memory, u: seq<Piece>, v: seq<Piece>, a: BitAddress)
    requires Sendable(u) && Sendable(v) && BarePackage(u) == BarePackage(v)
    ensures |u| == |v| && LastHit(mem, u, a) == LastHit(mem, v, a)
    ensures forall i | 0 <= i < |u| :: Bare(u[i].item) == Bare(v[i].item) && u[i].item.id == v[i].item.id
  {
    hide Hits, Piece.WriteRequest, BarePiece;
    assert |BarePackage(u)| == |u| && |BarePackage(v)| == |v|;
    forall i | 0 <= i < |u|
      ensures u[i].HasData() && v[i].HasData()
      ensures Hits(mem, u[i].WriteRequest(), a) == Hits(mem, v[i].WriteRequest(), a)
      ensures Bare(u[i].item) == Bare(v[i].item) && u[i].item.id == v[i].item.id
    {
      assert u[i] in u && v[i] in v;
      assert BarePiece(u[i]) == BarePackage(u)[i] == BarePackage(v)[i] == BarePiece(v[i]);
      SameHit(mem, u[i], v[i], a);
      BareFields(u[i], v[i]);
    }
  }

  lemma SameId(vars: seq<Item>, x: Item, y: Item)
    requires DistinctIds(vars) && x in vars && y in vars && x.id == y.id
    ensures x == y
  {}

  /** Which item decides a bit does not depend on the data. */
  lemma SameWinners(mem: Memory, rules: Rules, vars: seq<Item>, other: seq<Item>, a: BitAddress)
    requires Accepted(rules, vars) && DistinctIds(vars) && Accepted(rules, other) && OtherData(vars, other)
    requires Sendable(Pieces(rules, vars)) && Sendable(Wholes(vars)) && Sendable(Pieces(rules, other)) && Sendable(Wholes(other))
    ensures SameWinner(vars, other, Winner(mem, Pieces(rules, vars), a), Winner(mem, Pieces(rules, other), a))
    ensures SameWinner(vars, other, Winner(mem, Wholes(vars), a), Winner(mem, Wholes(other), a))
  {
    hide Pieces, Sendable, OtherData, LastHit, Slices, BarePackage, Bare, Distinct, SplitSafe, Terminates, Packable,
         Item.Writable;
    SameTravel(rules, vars, other);
    SameLastHit(mem, Pieces(rules, vars), Pieces(rules, other), a);
    SameWholes(vars, other);
    SameLastHit(mem, Wholes(vars), Wholes(other), a);
    WholesHold(vars);
    WholesHold(other);
    var k := LastHit(mem, Pieces(rules, vars), a);
    if k >= 0 {
      PiecesAreSlices(rules, vars, Pieces(rules, vars)[k]);
      PiecesAreSlices(rules, other, Pieces(rules, other)[k]);
    }
  }

  /** The same item of both lists, or none. */
  ghost predicate SameWinner(vars: seq<Item>, other: seq<Item>, w: Option<Item>, v: Option<Item>) {
    if w.None? then v.None? else v.Some? && w.value in vars && v.value in other && w.value.id == v.value.id
  }

  lemma SameWholes(vars: seq<Item>, other: seq<Item>)
    requires OtherData(vars, other)
    ensures BarePackage(Wholes(vars)) == BarePackage(Wholes(other))
  {
    SameLength(vars, other);
    forall i | 0 <= i < |vars| ensures BarePackage(Wholes(vars))[i] == BarePackage(Wholes(other))[i] {
      OtherAt(vars, other, i);
    }
  }

  /** The item gets one value for all its bits. */
  function Fill(x: Item, value: bool): Item {
    x.(data := seq(|x.data|, _ => if !value then 0 else if x.bit then 1 else 255))
  }

  /** The item with this identity gets the value and all others get the opposite one. */
  function FillAll(vars: seq<Item>, id: nat, value: bool): seq<Item> {
    seq(|vars|, i requires 0 <= i < |vars| => Fill(vars[i], (vars[i].id == id) == value))
  }

  lemma FillOther(vars: seq<Item>, id: nat, value: bool)
    ensures OtherData(vars, FillAll(vars, id, value))
  {
    assert BareItems(vars) == BareItems(FillAll(vars, id, value));
  }

  lemma FillPuts(x: Item, value: bool, a: BitAddress)
    requires x.Writable() && Fill(x, value).Writable() && Covers(Whole(Fill(x, value)).WriteRequest(), a)
    ensures ItemValue(Fill(x, value), a) == value
  {
    assert forall i: nat | i < 8 :: GetBit(255, i) && !GetBit(0, i);
  }

  lemma WinnerCovers(mem: Memory, rules: Rules, vars: seq<Item>, a: BitAddress)
    requires Accepted(rules, vars) && Exists(mem, a) && Sendable(Pieces(rules, vars)) && Sendable(Wholes(vars))
    ensures var w := Winner(mem, Pieces(rules, vars), a);
            w.Some? ==> w.value.Writable() && Covers(Whole(w.value).WriteRequest(), a)
    ensures var w := Winner(mem, Wholes(vars), a);
            w.Some? ==> w.value.Writable() && Covers(Whole(w.value).WriteRequest(), a)
  {
    hide Pieces, Sendable, Hits, Covers, Item.Writable;
    PackedHit(mem, rules, vars, a);
    WholeHit(mem, vars, a);
    WholesHold(vars);
    HitCovers(mem, vars, a);
  }

  lemma FilledAt(vars: seq<Item>, id: nat, value: bool, x: Item)
    requires x in FillAll(vars, id, value)
    ensures exists y <- vars :: x == Fill(y, (x.id == id) == value)
  {
    var i :| 0 <= i < |vars| && FillAll(vars, id, value)[i] == x;
    assert vars[i] in vars;
  }

  lemma FilledPuts(mem: Memory, vars: seq<Item>, id: nat, value: bool, w: Option<Item>, a: BitAddress)
    requires Exists(mem, a) && (forall x <- vars :: x.Writable())
    requires w.Some? ==> w.value in FillAll(vars, id, value) && w.value.Writable() && Covers(Whole(w.value).WriteRequest(), a)
    ensures Put(mem, w, a) == if w.None? then BitAt(mem, a) else (w.value.id == id) == value
  {
    hide FillAll, Fill, Covers, Item.Writable, BitAt, ItemValue;
    if w.Some? {
      FilledAt(vars, id, value, w.value);
      var y :| y in vars && w.value == Fill(y, (w.value.id == id) == value);
      FillPuts(y, (w.value.id == id) == value, a);
    }
  }

  /** Data that shows that two different items decide bit a. */
  lemma Telling(mem: Memory, rules: Rules, vars: seq<Item>, a: BitAddress) returns (other: seq<Item>)
    requires Accepted(rules, vars) && DistinctIds(vars) && Exists(mem, a)
    requires Sendable(Pieces(rules, vars)) && Sendable(Wholes(vars))
    requires Winner(mem, Pieces(rules, vars), a) != Winner(mem, Wholes(vars), a)
    ensures OtherData(vars, other) && Accepted(rules, other) && !KeepsOrder(mem, rules, other)
  {
    hide Pieces, Sendable, OtherData, Winner, FillAll, Put, Covers, Item.Writable, Execute, Requests, BitAt, Wholes;
    var packed, whole := Winner(mem, Pieces(rules, vars), a), Winner(mem, Wholes(vars), a);
    var decisive := if whole.Some? then whole.value else packed.value;
    var value := !BitAt(mem, a);
    other := FillAll(vars, decisive.id, value);
    FillOther(vars, decisive.id, value);
    OtherAccepted(rules, vars, other);
    AllSendable(rules, other);
    SameWinners(mem, rules, vars, other, a);
    WinnerCovers(mem, rules, other, a);
    FilledPuts(mem, vars, decisive.id, value, Winner(mem, Pieces(rules, other), a), a);
    FilledPuts(mem, vars, decisive.id, value, Winner(mem, Wholes(other), a), a);
    WriteOrderIff(mem, rules, other);
  }

  lemma AlsoTravelsLast(mem: Memory, rules: Rules, vars: seq<Item>, other: seq<Item>)
    requires Accepted(rules, vars) && DistinctIds(vars) && OtherData(vars, other) && Accepted(rules, other)
    requires Sendable(Pieces(rules, vars)) && Sendable(Wholes(vars)) && LatestTravelsLast(mem, rules, vars)
    ensures KeepsOrder(mem, rules, other)
  {
    hide Pieces, Sendable, OtherData, Winner, Put, Item.Writable, Execute, Requests, Wholes;
    OtherAccepted(rules, vars, other);
    AllSendable(rules, other);
    forall a: BitAddress | Exists(mem, a)
      ensures Winner(mem, Pieces(rules, other), a) == Winner(mem, Wholes(other), a)
    {
      SameWinners(mem, rules, vars, other, a);
      var packed, whole := Winner(mem, Pieces(rules, other), a), Winner(mem, Wholes(other), a);
      if packed.Some? {
        SameId(other, packed.value, whole.value);
      }
    }
    WriteOrderIff(mem, rules, other);
  }

  /** Whatever data the items carry, the call leaves the memory of request order. */
  ghost predicate AnyDataKeepsOrder(mem: Memory, rules: Rules, vars: seq<Item>) {
    forall other | OtherData(vars, other) && Accepted(rules, other) :: KeepsOrder(mem, rules, other)
  }

  /** That is so if and only if at every bit the item requested last also travels last. */
  lemma AnyDataIff(mem: Memory, rules: Rules, vars: seq<Item>)
    requires Accepted(rules, vars) && DistinctIds(vars)
    requires Sendable(Pieces(rules, vars)) && Sendable(Wholes(vars))
    ensures AnyDataKeepsOrder(mem, rules, vars) <==> LatestTravelsLast(mem, rules, vars)
  {
    hide Pieces, Sendable, OtherData, Winner, Wholes, KeepsOrder, LatestTravelsLast, Item.Writable, SplitSafe;
    if LatestTravelsLast(mem, rules, vars) {
      forall other | OtherData(vars, other) && Accepted(rules, other) ensures KeepsOrder(mem, rules, other) {
        AlsoTravelsLast(mem, rules, vars, other);
      }
    } else {
      var a := Contested(mem, rules, vars);
      var other := Telling(mem, rules, vars, a);
    }
  }

  lemma Contested(mem: Memory, rules: Rules, vars: seq<Item>) returns (a: BitAddress)
    requires (forall x <- vars :: Terminates(rules, x)) && Sendable(Pieces(rules, vars)) && Sendable(Wholes(vars))
    requires !LatestTravelsLast(mem, rules, vars)
    ensures Exists(mem, a) && Winner(mem, Pieces(rules, vars), a) != Winner(mem, Wholes(vars), a)
  {
    a :| Exists(mem, a) && Winner(mem, Pieces(rules, vars), a) != Winner(mem, Wholes(vars), a);
  }

  // ---- lists that have room in one telegram ----

  /** Among the writes of two lists, one after the other, the last hit is in the second list if there is one. */
  lemma WinnerAppends(mem: Memory, u: seq<Piece>, v: seq<Piece>, a: BitAddress)
    requires Sendable(u + v)
    ensures Sendable(u) && Sendable(v)
    ensures Winner(mem, u + v, a) == if Winner(mem, v, a).Some? then Winner(mem, v, a) else Winner(mem, u, a)
  {
    hide Hits, Piece.WriteRequest, Piece.HasData, Request.Writable;
    assert forall p :: p in u || p in v ==> p in u + v;
    var k, l, n := LastHit(mem, u, a), LastHit(mem, v, a), LastHit(mem, u + v, a);
    assert forall i | 0 <= i < |u| :: (u + v)[i] == u[i];
    assert forall i | 0 <= i < |v| :: (u + v)[|u| + i] == v[i];
    if l >= 0 {
      assert n == |u| + l;
    } else if n >= 0 {
      assert n == k;
    }
  }

  /** One of the pieces hits bit a. */
  predicate AnyHits(mem: Memory, pieces: seq<Piece>, a: BitAddress) {
    exists p <- pieces :: p.HasData() && Hits(mem, p.WriteRequest(), a)
  }

  lemma OneItemWins(mem: Memory, pieces: seq<Piece>, x: Item, a: BitAddress)
    requires Sendable(pieces) && forall p <- pieces :: p.item == x
    ensures Winner(mem, pieces, a) == if AnyHits(mem, pieces, a) then Some(x) else None
  {
    hide Hits, Piece.WriteRequest, Piece.HasData, Request.Writable;
    var k := LastHit(mem, pieces, a);
    if k >= 0 {
      assert pieces[k] in pieces;
    }
  }

  lemma {:induction false} OfLengthHolds(items: seq<Item>, count: u16)
    ensures forall x <- OfLength(items, count) :: x in items
  {
    if items != [] {
      OfLengthHolds(items[1..], count);
    }
  }

  /** The item that wins among all wins among those of its length. */
  lemma {:induction false} WinsItsLength(mem: Memory, items: seq<Item>, count: u16, a: BitAddress)
    requires Sendable(Wholes(items)) && Winner(mem, Wholes(items), a).Some? && Winner(mem, Wholes(items), a).value.count == count
    ensures Sendable(Wholes(OfLength(items, count)))
    ensures Winner(mem, Wholes(OfLength(items, count)), a) == Winner(mem, Wholes(items), a)
  {
    hide Winner, Sendable, OfLength, ItemHits;
    if items == [] {
      NoWinner(mem, count, a);
    } else {
      var first, rest := items[0], items[1..];
      assert [first] + rest == items;
      WinnerOfMore(mem, first, rest, a);
      OfLengthStep(first, rest, count);
      if Winner(mem, Wholes(rest), a).Some? {
        WinsItsLength(mem, rest, count, a);
        if first.count == count {
          OfLengthHolds(items, count);
          SomeSendable(items, [first] + OfLength(rest, count));
          WinnerOfMore(mem, first, OfLength(rest, count), a);
        }
      } else {
        OfLengthHolds(items, count);
        OfLengthHolds(rest, count);
        SomeSendable(items, [first] + OfLength(rest, count));
        WinnerOfMore(mem, first, OfLength(rest, count), a);
        FewerHits(mem, rest, OfLength(rest, count), a);
      }
    }
  }

  lemma OfLengthStep(first: Item, rest: seq<Item>, count: u16)
    ensures OfLength([first] + rest, count) == if first.count == count then [first] + OfLength(rest, count) else OfLength(rest, count)
  {
    assert ([first] + rest)[1..] == rest && [] + OfLength(rest, count) == OfLength(rest, count);
  }

  lemma WinnerOfMore(mem: Memory, first: Item, rest: seq<Item>, a: BitAddress)
    requires Sendable(Wholes([first] + rest))
    ensures Sendable(Wholes(rest))
    ensures Winner(mem, Wholes([first] + rest), a) ==
            if Winner(mem, Wholes(rest), a).Some? then Winner(mem, Wholes(rest), a)
            else if ItemHits(mem, first, a) then Some(first) else None
  {
    hide Sendable, Hits;
    assert Wholes([first] + rest) == [Whole(first)] + Wholes(rest);
    WinnerAppends(mem, [Whole(first)], Wholes(rest), a);
    OneItemWins(mem, [Whole(first)], first, a);
    assert Whole(first) in [Whole(first)];
  }

  lemma NoWinner(mem: Memory, count: u16, a: BitAddress)
    ensures Sendable(Wholes([])) && Winner(mem, Wholes([]), a).None? && OfLength([], count) == []
  {}

  lemma SomeSendable(items: seq<Item>, some: seq<Item>)
    requires Sendable(Wholes(items)) && forall x <- some :: x in items
    ensures Sendable(Wholes(some))
  {
    forall p | p in Wholes(some) ensures p.HasData() && p.WriteRequest().Writable() {
      var i :| 0 <= i < |some| && Wholes(some)[i] == p;
      assert some[i] in some;
      var j :| 0 <= j < |items| && items[j] == some[i];
      assert Wholes(items)[j] == p;
    }
  }

  lemma FewerHits(mem: Memory, items: seq<Item>, some: seq<Item>, a: BitAddress)
    requires Sendable(Wholes(items)) && Sendable(Wholes(some)) && forall x <- some :: x in items
    requires Winner(mem, Wholes(items), a).None?
    ensures Winner(mem, Wholes(some), a).None?
  {
    hide Hits;
    assert LastHit(mem, Wholes(items), a) < 0;
    forall i | 0 <= i < |some| ensures Wholes(some)[i].HasData() && !Hits(mem, Wholes(some)[i].WriteRequest(), a) {
      assert some[i] in some;
      var j :| 0 <= j < |items| && items[j] == some[i];
      assert Wholes(items)[j] == Wholes(some)[i];
    }
  }

  /**
   * Where an item overlaps a longer one requested later, an item requested later still is written as well. So the item
   * requested last is not longer than any other that is written to the bit.
   */
  ghost predicate LastIsShortest(mem: Memory, vars: seq<Item>, a: BitAddress) {
    forall i, j | 0 <= i < j < |vars| && vars[i].count < vars[j].count && ItemHits(mem, vars[i], a) && ItemHits(mem, vars[j], a) ::
      exists k | j < k < |vars| :: ItemHits(mem, vars[k], a)
  }

  lemma WinnerHits(mem: Memory, items: seq<Item>, a: BitAddress) returns (k: int)
    requires Sendable(Wholes(items))
    ensures -1 <= k < |items|
    ensures k < 0 ==> Winner(mem, Wholes(items), a).None?
    ensures k >= 0 ==> Winner(mem, Wholes(items), a) == Some(items[k]) && ItemHits(mem, items[k], a)
    ensures forall i | k < i < |items| :: !ItemHits(mem, items[i], a)
  {
    hide Hits;
    k := LastHit(mem, Wholes(items), a);
    forall i | k < i < |items| ensures !ItemHits(mem, items[i], a) {
      assert Wholes(items)[i] == Whole(items[i]);
    }
  }

  /** Of the items that are written to a bit the last one in sorted order is the shortest. */
  lemma SortedWinner(mem: Memory, vars: seq<Item>, a: BitAddress)
    requires Sendable(Wholes(vars)) && Sendable(Wholes(OrderByDescending(vars)))
    ensures var z := Winner(mem, Wholes(OrderByDescending(vars)), a);
            && (z.None? ==> Winner(mem, Wholes(vars), a).None?)
            && (z.Some? ==> z.value in vars && ItemHits(mem, z.value, a) &&
                            forall x <- vars :: ItemHits(mem, x, a) ==> z.value.count <= x.count)
  {
    hide ItemHits, Winner, OrderByDescending, Sendable;
    var sorted := OrderByDescending(vars);
    SortedKeepsItems(vars);
    SortedStably(vars, 0);
    var k := WinnerHits(mem, sorted, a);
    var w := WinnerHits(mem, vars, a);
    forall x | x in vars && ItemHits(mem, x, a) ensures k >= 0 && sorted[k].count <= x.count {
      var j :| 0 <= j < |sorted| && sorted[j] == x;
    }
  }

  lemma SameLengthWins(mem: Memory, vars: seq<Item>, a: BitAddress, w: Item, z: Item)
    requires Sendable(Wholes(vars)) && Sendable(Wholes(OrderByDescending(vars))) && w.count == z.count
    requires Winner(mem, Wholes(vars), a) == Some(w) && Winner(mem, Wholes(OrderByDescending(vars)), a) == Some(z)
    ensures w == z
  {
    hide Winner, OrderByDescending, Sendable;
    SortedStably(vars, w.count);
    WinsItsLength(mem, vars, w.count, a);
    WinsItsLength(mem, OrderByDescending(vars), w.count, a);
  }

  lemma SortedWinnerIff(mem: Memory, vars: seq<Item>, a: BitAddress)
    requires Sendable(Wholes(vars)) && Sendable(Wholes(OrderByDescending(vars)))
    ensures Winner(mem, Wholes(OrderByDescending(vars)), a) == Winner(mem, Wholes(vars), a) <==> LastIsShortest(mem, vars, a)
  {
    hide Winner, OrderByDescending, Sendable, ItemHits;
    var z := Winner(mem, Wholes(OrderByDescending(vars)), a);
    SortedWinner(mem, vars, a);
    var k := WinnerHits(mem, vars, a);
    if z.Some? {
      var i :| 0 <= i < |vars| && vars[i] == z.value;
      if vars[k].count == z.value.count {
        SameLengthWins(mem, vars, a, vars[k], z.value);
      }
    }
  }

  /**
   * Items that have room in one telegram keep their order, whatever the data, if and only if no item overlaps a longer
   * one requested later, except where an item requested later still is written as well.
   */
  lemma RoomForAllIff(mem: Memory, rules: Rules, vars: seq<Item>)
    requires Accepted(rules, vars) && DistinctIds(vars) && RoomForAll(rules, OrderByDescending(vars))
    ensures AnyDataKeepsOrder(mem, rules, vars) <==> forall a: BitAddress | Exists(mem, a) :: LastIsShortest(mem, vars, a)
  {
    hide Winner, OrderByDescending, Sendable, Pieces, LastIsShortest, AnyDataKeepsOrder, Wholes, Item.Writable, SplitSafe;
    AllSendable(rules, vars);
    SortedTravel(rules, vars);
    AnyDataIff(mem, rules, vars);
    forall a: BitAddress | Exists(mem, a)
      ensures Winner(mem, Pieces(rules, vars), a) == Winner(mem, Wholes(vars), a) <==> LastIsShortest(mem, vars, a)
    {
      SortedWinnerIff(mem, vars, a);
    }
  }

  /** A condition on the request list alone: no item has a bit in common with a longer one requested later. */
  predicate NoLongerLater(vars: seq<Item>) {
    forall i, j | 0 <= i < j < |vars| && vars[i].count < vars[j].count :: !Share(Whole(vars[i]), Whole(vars[j]))
  }

  lemma NoLongerLaterKeeps(mem: Memory, rules: Rules, vars: seq<Item>)
    requires Accepted(rules, vars) && DistinctIds(vars) && RoomForAll(rules, OrderByDescending(vars)) && NoLongerLater(vars)
    ensures AnyDataKeepsOrder(mem, rules, vars)
  {
    hide OrderByDescending, Share, AnyDataKeepsOrder, Item.Writable, Covers, Status, SplitSafe;
    RoomForAllIff(mem, rules, vars);
    forall a: BitAddress, i, j | 0 <= i < j < |vars| && ItemHits(mem, vars[i], a) && ItemHits(mem, vars[j], a)
      ensures vars[i].count >= vars[j].count
    {
      BothShare(Whole(vars[i]), Whole(vars[j]), a);
    }
  }

  // ---- two items ----

  /** The piece covers bit a. */
  predicate Touches(p: Piece, a: BitAddress) { p.HasData() && Covers(p.WriteRequest(), a) }

  /** An item that is clean is hit by its slices exactly where it is hit whole, and its last slice where it covers. */
  lemma SlicesHit(mem: Memory, rules: Rules, x: Item, a: BitAddress)
    requires x.Writable() && SplitSafe(rules, x) && Terminates(rules, x) && Packable(rules, x) && Clean(mem, rules, x)
    ensures Slices(x, MaxLength(rules)) != [] && Sendable(Slices(x, MaxLength(rules)))
    ensures forall p <- Slices(x, MaxLength(rules)) :: p.item == x
    ensures AnyHits(mem, Slices(x, MaxLength(rules)), a) <==> ItemHits(mem, x, a)
    ensures ItemHits(mem, x, a) ==>
              (AnyHits(mem, [Last(x, MaxLength(rules))], a) <==> Touches(Last(x, MaxLength(rules)), a))
  {
    hide Hits, Slices, Clean, MaxLength, Item.Writable, SplitSafe, Sendable, Piece.HasData;
    SomeSlice(rules, x);
    SendableIff(rules, x);
    SlicesTile(x, MaxLength(rules));
    CleanIff(mem, rules, x);
    if ItemHits(mem, x, a) {
      var p := SliceHits(mem, rules, x, a);
      assert AnyHits(mem, Slices(x, MaxLength(rules)), a);
      LastTouches(mem, rules, x, a);
    } else if AnyHits(mem, Slices(x, MaxLength(rules)), a) {
      var p :| p in Slices(x, MaxLength(rules)) && p.HasData() && Hits(mem, p.WriteRequest(), a);
      HitSlice(mem, rules, x, p, a);
    }
  }

  lemma HitSlice(mem: Memory, rules: Rules, x: Item, p: Piece, a: BitAddress)
    requires x.Writable() && SplitSafe(rules, x) && Clean(mem, rules, x) && (MaxLength(rules) > 0 || x.count == 0)
    requires Sendable(Slices(x, MaxLength(rules))) && p in Slices(x, MaxLength(rules))
    requires p.HasData() && Hits(mem, p.WriteRequest(), a)
    ensures ItemHits(mem, x, a)
  {
    hide Slices, Clean, Covers, Status, Item.Writable, SplitSafe, Sendable, Piece.HasData, Request.Writable;
    OneSendable(Slices(x, MaxLength(rules)), p);
    SliceOf(rules, x, p, a);
    CleanIff(mem, rules, x);
  }

  lemma LastTouches(mem: Memory, rules: Rules, x: Item, a: BitAddress)
    requires x.Writable() && SplitSafe(rules, x) && (MaxLength(rules) > 0 || x.count == 0) && ItemHits(mem, x, a)
    requires Slices(x, MaxLength(rules)) != [] && Sendable(Slices(x, MaxLength(rules)))
    ensures AnyHits(mem, [Last(x, MaxLength(rules))], a) <==> Touches(Last(x, MaxLength(rules)), a)
  {
    hide Slices, Covers, Status, Item.Writable, SplitSafe, Sendable, Piece.HasData, Request.Writable, Piece.WriteRequest;
    var p := Last(x, MaxLength(rules));
    assert p in [p] && p in Slices(x, MaxLength(rules));
    OneSendable(Slices(x, MaxLength(rules)), p);
    InRangeLikeWhole(mem, rules, x, p);
  }

  lemma InRangeLikeWhole(mem: Memory, rules: Rules, x: Item, p: Piece)
    requires x.Writable() && SplitSafe(rules, x) && (MaxLength(rules) > 0 || x.count == 0)
    requires p in Slices(x, MaxLength(rules)) && p.HasData() && Status(mem, Whole(x).WriteRequest()) == Success
    ensures Status(mem, p.WriteRequest()) == Success
  {
    hide Status, Slices, Piece.HasData, Piece.WriteRequest, MaxLength;
    if x.count > MaxLength(rules) {
      SlicesAfterFirst(x, MaxLength(rules));
      SlicesTile(x, MaxLength(rules));
      SliceStatus(mem, x, p);
    } else {
      NotCut(x, MaxLength(rules));
    }
  }

  /** The item placed first travels last at bit a: its last piece covers it and travels behind the other's. */
  predicate TailLast(rules: Rules, first: Item, second: Item, a: BitAddress)
    requires Slices(first, MaxLength(rules)) != [] && Slices(second, MaxLength(rules)) != []
  {
    var p, q := Last(first, MaxLength(rules)), Last(second, MaxLength(rules));
    !Fills(rules, p.Count()) && Touches(p, a) && (Overtaken(rules, first, second) || !Touches(q, a))
  }

  predicate Cleanly(mem: Memory, rules: Rules, x: Item) {
    x.Writable() && SplitSafe(rules, x) && Terminates(rules, x) && Packable(rules, x) && Clean(mem, rules, x)
  }

  lemma FrontAndLast(mem: Memory, rules: Rules, x: Item, a: BitAddress)
    requires Cleanly(mem, rules, x)
    ensures Slices(x, MaxLength(rules)) != [] && Sendable(Slices(x, MaxLength(rules)))
    ensures Slices(x, MaxLength(rules)) == Front(x, MaxLength(rules)) + [Last(x, MaxLength(rules))]
    ensures Winner(mem, Slices(x, MaxLength(rules)), a) == if ItemHits(mem, x, a) then Some(x) else None
    ensures Sendable([Last(x, MaxLength(rules))]) && Sendable(Front(x, MaxLength(rules)))
    ensures Winner(mem, [Last(x, MaxLength(rules))], a) ==
            if ItemHits(mem, x, a) && Touches(Last(x, MaxLength(rules)), a) then Some(x) else None
    ensures Winner(mem, Front(x, MaxLength(rules)), a) in {Some(x), None}
  {
    hide Slices, Winner, ItemHits, Touches, Clean, Item.Writable, SplitSafe, Packable, Terminates, AnyHits, MaxLength, Sendable;
    var max := MaxLength(rules);
    SlicesHit(mem, rules, x, a);
    LastFits(rules, x);
    OneItemWins(mem, Slices(x, max), x, a);
    WinnerAppends(mem, Front(x, max), [Last(x, max)], a);
    assert forall p <- Front(x, max) :: p in Slices(x, max);
    assert forall p <- [Last(x, max)] :: p in Slices(x, max);
    OneItemWins(mem, Front(x, max), x, a);
    OneItemWins(mem, [Last(x, max)], x, a);
  }

  /** Which of two items decides a bit when `first` is placed first. */
  lemma TwoItemsWinner(mem: Memory, rules: Rules, first: Item, second: Item, a: BitAddress)
    requires Cleanly(mem, rules, first) && Cleanly(mem, rules, second)
    ensures Slices(first, MaxLength(rules)) != [] && Slices(second, MaxLength(rules)) != []
    ensures Sendable(TwoItems(rules, first, second))
    ensures Winner(mem, TwoItems(rules, first, second), a) ==
            if ItemHits(mem, first, a) && (!ItemHits(mem, second, a) || TailLast(rules, first, second, a)) then Some(first)
            else if ItemHits(mem, second, a) then Some(second) else None
  {
    hide Slices, Winner, ItemHits, Touches, Cleanly, Fills, Overtaken, Sendable, Front, Last, MaxLength, TwoItems;
    var max := MaxLength(rules);
    FrontAndLast(mem, rules, first, a);
    FrontAndLast(mem, rules, second, a);
    var fa, p, fb, q := Front(first, max), Last(first, max), Front(second, max), Last(second, max);
    JoinSendable(fa, [p]);
    JoinSendable(fb, [q]);
    JoinSendable(fa + [p], fb + [q]);
    JoinSendable(fa, fb + [q]);
    JoinSendable(fa + (fb + [q]), [p]);
    JoinSendable(fa, fb);
    JoinSendable([p], [q]);
    JoinSendable(fa + fb, [p] + [q]);
    WinnerAppends(mem, fa, [p], a);
    WinnerAppends(mem, fb, [q], a);
    TwoItemsCases(rules, first, second);
    if Fills(rules, p.Count()) {
      WinnerAppends(mem, fa + [p], fb + [q], a);
    } else if Overtaken(rules, first, second) {
      WinnerAppends(mem, fa, fb + [q], a);
      WinnerAppends(mem, fa + (fb + [q]), [p], a);
    } else {
      WinnerAppends(mem, fa, fb, a);
      WinnerAppends(mem, [p], [q], a);
      WinnerAppends(mem, fa + fb, [p] + [q], a);
    }
  }

  lemma JoinSendable(u: seq<Piece>, v: seq<Piece>)
    requires Sendable(u) && Sendable(v)
    ensures Sendable(u + v)
  {}

  lemma TwoItemsCases(rules: Rules, first: Item, second: Item)
    requires Slices(first, MaxLength(rules)) != [] && Slices(second, MaxLength(rules)) != []
    ensures var max := MaxLength(rules);
            var fa, p, fb, q := Front(first, max), Last(first, max), Front(second, max), Last(second, max);
            && Slices(first, max) == fa + [p] && Slices(second, max) == fb + [q]
            && TwoItems(rules, first, second) ==
                 (if Fills(rules, p.Count()) then (fa + [p]) + (fb + [q])
                  else if Overtaken(rules, first, second) then fa + (fb + [q]) + [p]
                  else (fa + fb) + ([p] + [q]))
  {
    hide Fills, Overtaken, Slices, MaxLength;
  }

  /** The item requested second also travels last at bit a. */
  predicate SecondTravelsLast(rules: Rules, x: Item, y: Item, a: BitAddress)
    requires Slices(x, MaxLength(rules)) != [] && Slices(y, MaxLength(rules)) != []
  {
    if x.count >= y.count then !TailLast(rules, x, y, a) else TailLast(rules, y, x, a)
  }

  /** Both items are in range and cover bit a. */
  predicate BothWritten(mem: Memory, x: Item, y: Item, a: BitAddress) {
    x.Writable() && y.Writable() && ItemHits(mem, x, a) && ItemHits(mem, y, a)
  }

  lemma BothExist(mem: Memory, x: Item, y: Item, a: BitAddress)
    requires BothWritten(mem, x, y, a)
    ensures Exists(mem, a) && Covers(Whole(x).WriteRequest(), a) && Covers(Whole(y).WriteRequest(), a)
  {}

  /** Which of two items decides a bit in the call, and which in writes in request order. */
  lemma PairWinner(mem: Memory, rules: Rules, x: Item, y: Item, a: BitAddress)
    requires Accepted(rules, [x, y]) && Clean(mem, rules, x) && Clean(mem, rules, y)
    requires Sendable(Pieces(rules, [x, y])) && Sendable(Wholes([x, y]))
    ensures Slices(x, MaxLength(rules)) != [] && Slices(y, MaxLength(rules)) != [] && x.Writable() && y.Writable()
    ensures Winner(mem, Wholes([x, y]), a) ==
            if ItemHits(mem, y, a) then Some(y) else if ItemHits(mem, x, a) then Some(x) else None
    ensures Winner(mem, Pieces(rules, [x, y]), a) ==
            if BothWritten(mem, x, y, a) then Some(if SecondTravelsLast(rules, x, y, a) then y else x)
            else Winner(mem, Wholes([x, y]), a)
  {
    hide Pieces, Slices, Winner, ItemHits, Clean, Sendable, TailLast, TwoItems, Item.Writable, SplitSafe, Terminates, Packable;
    assert x in [x, y] && y in [x, y];
    PairTravels(rules, x, y);
    TwoItemsWinner(mem, rules, x, y, a);
    TwoItemsWinner(mem, rules, y, x, a);
    var k := WinnerHits(mem, [x, y], a);
  }

  /**
   * Two items leave the memory of request order if and only if at every bit that both write the second one travels last
   * or they carry the same value; and they do so for all data if and only if it always travels last.
   */
  lemma TwoItemsIff(mem: Memory, rules: Rules, x: Item, y: Item)
    requires Accepted(rules, [x, y]) && Clean(mem, rules, x) && Clean(mem, rules, y)
    ensures Slices(x, MaxLength(rules)) != [] && Slices(y, MaxLength(rules)) != []
    ensures KeepsOrder(mem, rules, [x, y]) <==>
            forall a: BitAddress | BothWritten(mem, x, y, a) ::
              SecondTravelsLast(rules, x, y, a) || ItemValue(x, a) == ItemValue(y, a)
    ensures x.id != y.id ==>
              (AnyDataKeepsOrder(mem, rules, [x, y]) <==>
               forall a: BitAddress | BothWritten(mem, x, y, a) :: SecondTravelsLast(rules, x, y, a))
  {
    hide Pieces, Slices, Winner, Sendable, SecondTravelsLast, AnyDataKeepsOrder, Execute, Requests, ItemValue, Clean,
         Item.Writable, SplitSafe, Terminates, Packable, Covers, Status, BitAt;
    assert x in [x, y] && y in [x, y] && x != y by { assert [x, y][0] != [x, y][1]; }
    AllSendable(rules, [x, y]);
    SomeSlice(rules, x);
    SomeSlice(rules, y);
    WriteOrderIff(mem, rules, [x, y]);
    forall a: BitAddress | BothWritten(mem, x, y, a)
      ensures Exists(mem, a) && Covers(Whole(x).WriteRequest(), a) && Covers(Whole(y).WriteRequest(), a)
    {
      BothExist(mem, x, y, a);
    }
    forall a: BitAddress | Exists(mem, a)
      ensures Winner(mem, Pieces(rules, [x, y]), a) == Winner(mem, Wholes([x, y]), a) <==>
              (BothWritten(mem, x, y, a) ==> SecondTravelsLast(rules, x, y, a))
      ensures Put(mem, Winner(mem, Pieces(rules, [x, y]), a), a) == Put(mem, Winner(mem, Wholes([x, y]), a), a) <==>
              (BothWritten(mem, x, y, a) ==> SecondTravelsLast(rules, x, y, a) || ItemValue(x, a) == ItemValue(y, a))
    {
      PairWinner(mem, rules, x, y, a);
    }
    if x.id != y.id {
      AnyDataIff(mem, rules, [x, y]);
    }
  }

  /** Of two items that are not cut the second one travels last exactly when it is not longer. */
  lemma UncutPair(mem: Memory, rules: Rules, x: Item, y: Item, a: BitAddress)
    requires BothWritten(mem, x, y, a) && x.count <= MaxLength(rules) && y.count <= MaxLength(rules)
    ensures SecondTravelsLast(rules, x, y, a) <==> x.count >= y.count
  {
    hide MaxLength;
  }
}
