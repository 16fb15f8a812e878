/** The package generators of the read and the write side, as a function of the request list. */
module Generator {
  import opened Basics
  import opened Packing

  /** The open packages in creation order, the packages yielded so far, and whether an exception ended the run. */
  datatype State = State(open: seq<Package>, yielded: seq<Package>, failed: bool)

  // ---- one placement ----

  /** Index of the first package that accepts the piece, or the number of packages. */
  function FirstFit(rules: Rules, open: seq<Package>, piece: Piece): (k: nat)
    ensures k <= |open|
    ensures k < |open| ==> Accepts(rules, open[k], piece)
    ensures forall i | 0 <= i < k :: !Accepts(rules, open[i], piece)
  {
    if open == [] || Accepts(rules, open[0], piece) then 0
    else 1 + FirstFit(rules, open[1..], piece)
  }

  /** Yields open package k and closes it when it is full. */
  function Settle(rules: Rules, st: State, k: nat): State
    requires k < |st.open|
  {
    if Full(rules, st.open[k]) then st.(yielded := st.yielded + [st.open[k]], open := Without(st.open, k))
    else st
  }

  function Place(rules: Rules, st: State, piece: Piece): State {
    var k := FirstFit(rules, st.open, piece);
    if k < |st.open| then Settle(rules, st.(open := st.open[k := st.open[k] + [piece]]), k)
    else if Accepts(rules, [], piece) then Settle(rules, st.(open := st.open + [[piece]]), |st.open|)
    else st.(failed := true)
  }

  /** One turn of the slicing loop: full slices are yielded at once, a shorter last slice is placed first-fit. */
  function Slice(rules: Rules, st: State, item: Item, done: nat): (State, nat)
    requires done < item.count
  {
    var max := MaxLength(rules);
    var slice := Min(max, item.count - done);
    match Child(rules, item, done, slice)
    case None => (st.(failed := true), done)
    case Some(child) =>
      if slice < max then (Place(rules, st, child), done + slice)
      else if Accepts(rules, [], child) then (st.(yielded := st.yielded + [[child]]), done + slice)
      else (st.(failed := true), done)
  }

  /** The slicing loop ends for this item: every turn that does not throw makes progress. */
  predicate Terminates(rules: Rules, item: Item) {
    rules.kind.Reading? || MaxLength(rules) > 0 || item.count == 0 || item.offset >= 0x1_0000
  }

  function Split(rules: Rules, st: State, item: Item, done: nat): State
    requires Terminates(rules, item)
    decreases if done <= item.count then item.count - done else 0
  {
    if done >= item.count then st
    else
      var (next, done') := Slice(rules, st, item, done);
      if next.failed || done' <= done then next else Split(rules, next, item, done')
  }

  /** Starting a new package with the piece is what placing does when no open package accepts it. */
  lemma StartPlaces(rules: Rules, st: State, piece: Piece)
    requires FirstFit(rules, st.open, piece) == |st.open| && Accepts(rules, [], piece)
    ensures Place(rules, st, piece) ==
            if Full(rules, [piece]) then st.(yielded := st.yielded + [[piece]])
            else Settle(rules, st.(open := st.open + [[piece]]), |st.open|)
    ensures !Full(rules, [piece]) ==> Place(rules, st, piece) == st.(open := st.open + [[piece]])
  {
    assert Without(st.open + [[piece]], |st.open|) == st.open;
  }

  /** What one more turn does to the rest of the loop. */
  lemma SplitTurn(rules: Rules, st: State, item: Item, done: nat)
    requires Terminates(rules, item) && done < item.count && !st.failed
    ensures var (next, done') := Slice(rules, st, item, done);
            Split(rules, st, item, done) ==
              if next.failed || done' == item.count then next else Split(rules, next, item, done')
  {
    var (next, done') := Slice(rules, st, item, done);
    if !next.failed && done' == item.count {
      assert Split(rules, next, item, done') == next;
    }
    var slice := Min(MaxLength(rules), item.count - done);
    if slice == 0 && Child(rules, item, done, slice).Some? {
      Constants(rules, Child(rules, item, done, slice).value);
    }
  }

  /** The ways in which a turn goes on: it throws, places the short last slice, or yields a full one. */
  lemma SplitCases(rules: Rules, st: State, item: Item, done: nat)
    requires Terminates(rules, item) && done < item.count && !st.failed
    ensures var slice := Min(MaxLength(rules), item.count - done);
            var child := Child(rules, item, done, slice);
            Split(rules, st, item, done) ==
              if child.None? then st.(failed := true)
              else if slice < MaxLength(rules) then Place(rules, st, child.value)
              else if !Accepts(rules, [], child.value) then st.(failed := true)
              else Split(rules, st.(yielded := st.yielded + [[child.value]]), item, done + slice)
  {
    hide Place, Accepts, MaxLength, Split;
    SplitTurn(rules, st, item, done);
    var slice := Min(MaxLength(rules), item.count - done);
    if done + slice == item.count && Child(rules, item, done, slice).Some? {
      SplitEnds(rules, st.(yielded := st.yielded + [[Child(rules, item, done, slice).value]]), item);
    }
  }

  lemma SplitEnds(rules: Rules, st: State, item: Item)
    requires Terminates(rules, item)
    ensures Split(rules, st, item, item.count) == st
  {}

  /** A turn that does not throw makes progress. */
  lemma TurnAdvances(rules: Rules, st: State, item: Item, done: nat)
    requires Terminates(rules, item) && done < item.count && !st.failed
    ensures var (next, done') := Slice(rules, st, item, done); !next.failed ==> done < done' <= item.count
  {
    hide Place, Accepts;
    var slice := Min(MaxLength(rules), item.count - done);
    if slice == 0 && Child(rules, item, done, slice).Some? {
      Constants(rules, Child(rules, item, done, slice).value);
    }
  }

  function PlaceItem(rules: Rules, st: State, item: Item): State
    requires Terminates(rules, item)
  {
    if item.count > MaxLength(rules) then Split(rules, st, item, 0) else Place(rules, st, Whole(item))
  }

  // ---- the whole run ----

  /** Inserts after all items that are at least as long. */
  function Insert(item: Item, sorted: seq<Item>): seq<Item> {
    if sorted == [] || sorted[0].count < item.count then [item] + sorted
    else [sorted[0]] + Insert(item, sorted[1..])
  }

  /** Longest first; items of one length keep their order. */
  function OrderByDescending(items: seq<Item>): seq<Item> {
    if items == [] then [] else Insert(items[|items| - 1], OrderByDescending(items[..|items| - 1]))
  }

  function Run(rules: Rules, items: seq<Item>): State
    requires forall x <- items :: Terminates(rules, x)
  {
    if items == [] then State([], [], false)
    else
      var st := Run(rules, items[..|items| - 1]);
      if st.failed then st else PlaceItem(rules, st, items[|items| - 1])
  }

  lemma {:induction false} SortedKeepsItems(items: seq<Item>)
    ensures multiset(OrderByDescending(items)) == multiset(items)
    ensures forall x :: x in OrderByDescending(items) <==> x in items
  {
    if items != [] {
      var init, last := items[..|items| - 1], items[|items| - 1];
      assert items == init + [last];
      SortedKeepsItems(init);
      InsertAdds(last, OrderByDescending(init));
    }
    assert forall x :: x in OrderByDescending(items) <==> x in multiset(OrderByDescending(items));
  }

  lemma InsertAdds(item: Item, sorted: seq<Item>)
    ensures multiset(Insert(item, sorted)) == multiset(sorted) + multiset{item}
  {
    if sorted != [] {
      assert sorted == [sorted[0]] + sorted[1..];
    }
  }

  /** The items of one length, in order. */
  function OfLength(items: seq<Item>, count: u16): seq<Item> {
    if items == [] then []
    else (if items[0].count == count then [items[0]] else []) + OfLength(items[1..], count)
  }

  ghost predicate Descending(items: seq<Item>) {
    forall i, j :: 0 <= i < j < |items| ==> items[i].count >= items[j].count
  }

  lemma {:induction false} OfLengthAppends(a: seq<Item>, b: seq<Item>, count: u16)
    ensures OfLength(a + b, count) == OfLength(a, count) + OfLength(b, count)
  {
    if a == [] {
      assert a + b == b;
    } else {
      var head := if a[0].count == count then [a[0]] else [];
      var rest, other := OfLength(a[1..], count), OfLength(b, count);
      OfLengthAppends(a[1..], b, count);
      assert (a + b)[1..] == a[1..] + b;
      assert head + (rest + other) == (head + rest) + other;
    }
  }

  lemma {:induction false} InsertDescends(item: Item, sorted: seq<Item>)
    requires Descending(sorted)
    ensures Descending(Insert(item, sorted))
  {
    if sorted != [] && sorted[0].count >= item.count {
      InsertDescends(item, sorted[1..]);
      var rest := Insert(item, sorted[1..]);
      InsertAdds(item, sorted[1..]);
      forall x | x in rest ensures x.count <= sorted[0].count {
        assert x in multiset(rest);
      }
    }
  }

  lemma {:induction false} InsertIsStable(item: Item, sorted: seq<Item>, count: u16)
    requires Descending(sorted)
    ensures OfLength(Insert(item, sorted), count) == OfLength(sorted, count) + if item.count == count then [item] else []
  {
    if sorted == [] || sorted[0].count < item.count {
      assert ([item] + sorted)[1..] == sorted;
      if item.count == count {
        NoneOfLength(sorted, count);
      }
    } else {
      InsertIsStable(item, sorted[1..], count);
      var rest := Insert(item, sorted[1..]);
      assert ([sorted[0]] + rest)[1..] == rest;
    }
  }

  lemma {:induction false} NoneOfLength(items: seq<Item>, count: u16)
    requires forall x <- items :: x.count < count
    ensures OfLength(items, count) == []
  {
    if items != [] {
      NoneOfLength(items[1..], count);
    }
  }

  /** The order is longest first, and items of equal length stay in request order. */
  lemma {:induction false} SortedStably(items: seq<Item>, count: u16)
    ensures Descending(OrderByDescending(items))
    ensures OfLength(OrderByDescending(items), count) == OfLength(items, count)
  {
    if items != [] {
      var init, last := items[..|items| - 1], items[|items| - 1];
      assert items == init + [last];
      SortedStably(init, count);
      InsertDescends(last, OrderByDescending(init));
      InsertIsStable(last, OrderByDescending(init), count);
      OfLengthAppends(init, [last], count);
      assert OfLength([last], count) == (if last.count == count then [last] else []) + OfLength([last][1..], count);
    }
  }

  /** All packages in the order in which they are yielded, and whether the run ended in an exception. */
  function CreatePackages(rules: Rules, vars: seq<Item>): (r: (seq<Package>, bool))
    requires forall x <- vars :: Terminates(rules, x)
  {
    SortedKeepsItems(vars);
    var st := Run(rules, OrderByDescending(vars));
    (if st.failed then st.yielded else st.yielded + st.open, st.failed)
  }

  lemma RunStarts(rules: Rules, items: seq<Item>)
    ensures Run(rules, items[..0]) == State([], [], false)
  {}

  lemma RunStep(rules: Rules, items: seq<Item>, i: nat)
    requires i < |items| && forall x <- items :: Terminates(rules, x)
    ensures !Run(rules, items[..i]).failed ==> Run(rules, items[..i + 1]) == PlaceItem(rules, Run(rules, items[..i]), items[i])
  {
    assert items[..i + 1][..i] == items[..i];
  }

  /** Once an exception has ended the run, the remaining items are not looked at. */
  lemma {:induction false} RunStops(rules: Rules, items: seq<Item>, n: nat)
    requires n <= |items| && forall x <- items :: Terminates(rules, x)
    ensures Run(rules, items[..n]).failed ==> Run(rules, items) == Run(rules, items[..n])
    decreases |items|
  {
    if n < |items| {
      RunStops(rules, items[..|items| - 1], n);
      assert items[..|items| - 1][..n] == items[..n];
    } else {
      assert items[..n] == items;
    }
  }

  // ---- when does the run succeed ----

  /** The item can be packed: the PDU has room for a minimal telegram and no write child starts beyond 16 bits. */
  predicate Packable(rules: Rules, item: Item) {
    if rules.kind.Reading? then rules.pdu >= 24
    else rules.pdu >= 28 && (item.count <= MaxLength(rules) ||
                             (MaxLength(rules) > 0 && item.offset + item.count - LastSlice(item.count, MaxLength(rules)) < 0x1_0000))
  }

  predicate RoomForOne(rules: Rules) {
    rules.pdu >= if rules.kind.Reading? then 24 else 28
  }

  /** The constants fit together: what is at most the maximum length fits an empty package, and a full slice fills it. */
  lemma Constants(rules: Rules, piece: Piece)
    ensures !RoomForOne(rules) ==> forall package :: !Accepts(rules, package, piece)
    ensures RoomForOne(rules) && piece.Count() <= MaxLength(rules) ==> Accepts(rules, [], piece)
    ensures RoomForOne(rules) && piece.Count() == MaxLength(rules) ==> Full(rules, [piece])
  {
    assert [] + [piece] == [piece];
    assert [piece][..0] == [];
    assert Payload([piece]) == piece.Count();
    assert WriteTotal([piece]) == WRITE_HEADERS + WRITE_ITEM_HEADER + piece.Count();
  }

  /** No package accepts more than the maximum length. */
  lemma TooLong(rules: Rules, package: Package, piece: Piece)
    requires piece.Count() > MaxLength(rules)
    ensures !Accepts(rules, package, piece)
  {
    assert (package + [piece])[..|package + [piece]| - 1] == package;
    assert Payload(package + [piece]) >= piece.Count();
  }

  lemma PlaceFails(rules: Rules, st: State, piece: Piece)
    requires !st.failed && piece.Count() <= MaxLength(rules)
    ensures Place(rules, st, piece).failed <==> !RoomForOne(rules)
  {
    Constants(rules, piece);
  }

  lemma {:induction false} SplitFails(rules: Rules, st: State, item: Item, done: nat)
    requires !st.failed && done < item.count && MaxLength(rules) > 0 && Terminates(rules, item)
    ensures Split(rules, st, item, done).failed <==>
            !(RoomForOne(rules) &&
              (rules.kind.Reading? || item.offset + item.count - LastSlice(item.count - done, MaxLength(rules)) < 0x1_0000))
    decreases item.count - done
  {
    hide Accepts, Place, Split, MaxLength;
    var max := MaxLength(rules);
    var slice := Min(max, item.count - done);
    var child := Child(rules, item, done, slice);
    SplitTurn(rules, st, item, done);
    if child.Some? {
      Constants(rules, child.value);
      if slice < max {
        PlaceFails(rules, st, child.value);
      } else {
        var (next, done') := Slice(rules, st, item, done);
        if !next.failed && done' < item.count {
          SplitFails(rules, next, item, done');
        }
      }
    }
  }

  /** The exact condition under which placing an item throws. */
  lemma PlaceItemFails(rules: Rules, st: State, item: Item)
    requires !st.failed && Terminates(rules, item)
    ensures PlaceItem(rules, st, item).failed <==> !Packable(rules, item)
  {
    hide Accepts, Place, Split, Full, LastSlice;
    if item.count <= MaxLength(rules) {
      PlaceFails(rules, st, Whole(item));
    } else if MaxLength(rules) > 0 {
      SplitFails(rules, st, item, 0);
    } else {
      SplitTurn(rules, st, item, 0);
      Constants(rules, Part(item, item.offset, 0));
    }
  }

  lemma {:induction false} RunFails(rules: Rules, items: seq<Item>)
    requires forall x <- items :: Terminates(rules, x)
    ensures Run(rules, items).failed <==> exists x <- items :: !Packable(rules, x)
  {
    hide PlaceItem, Terminates, Packable;
    if items != [] {
      var init, last := items[..|items| - 1], items[|items| - 1];
      RunFails(rules, init);
      assert items == init + [last];
      if !Run(rules, init).failed {
        PlaceItemFails(rules, Run(rules, init), last);
      }
    }
  }

  /** The generator ends without an exception exactly when every item can be packed. */
  lemma GeneratorSucceeds(rules: Rules, vars: seq<Item>)
    requires forall x <- vars :: Terminates(rules, x)
    ensures CreatePackages(rules, vars).1 <==> exists x <- vars :: !Packable(rules, x)
  {
    SortedKeepsItems(vars);
    RunFails(rules, OrderByDescending(vars));
  }

  // ---- a run that does not end ----

  /** The slicing loop after the given number of turns. */
  function Turns(rules: Rules, st: State, item: Item, turns: nat): (State, nat)
    requires item.count > 0
  {
    if turns == 0 then (st, 0)
    else
      var (now, done) := Turns(rules, st, item, turns - 1);
      if now.failed || done >= item.count then (now, done) else Slice(rules, now, item, done)
  }

  function Repeat(package: Package, times: nat): seq<Package> {
    if times == 0 then [] else Repeat(package, times - 1) + [package]
  }

  /**
   * Writing a non-empty item with a PDU of exactly 28 bytes never ends: after any number of turns nothing has been
   * written, no exception was thrown and one more empty child has been yielded per turn.
   */
  lemma {:induction false} WriteSpins(rules: Rules, st: State, item: Item, turns: nat)
    requires !Terminates(rules, item) && !st.failed
    ensures rules.kind.Writing? && rules.pdu == 28 && item.count > 0
    ensures Turns(rules, st, item, turns) ==
            (st.(yielded := st.yielded + Repeat([Part(item, item.offset, 0)], turns)), 0)
  {
    if turns > 0 {
      var empty := Part(item, item.offset, 0);
      WriteSpins(rules, st, item, turns - 1);
      Constants(rules, empty);
      var now := Turns(rules, st, item, turns - 1).0;
      assert Child(rules, item, 0, 0) == Some(empty);
      assert Slice(rules, now, item, 0) == (now.(yielded := now.yielded + [[empty]]), 0);
      assert now.yielded + [[empty]] == st.yielded + Repeat([empty], turns);
      assert Turns(rules, st, item, turns) == Slice(rules, now, item, 0);
    } else {
      assert st.yielded + [] == st.yielded;
    }
  }
}
