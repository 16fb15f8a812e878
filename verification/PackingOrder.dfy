/** The order in which the pieces of a call travel. */
module PackingOrder {
  import opened Basics
  import opened Packing
  import opened Generator
  import opened Coverage

  /** Every piece in a package of its own. */
  function Singles(pieces: seq<Piece>): seq<Package> {
    seq(|pieces|, i requires 0 <= i < |pieces| => [pieces[i]])
  }

  lemma {:induction false} FlatSingles(pieces: seq<Piece>)
    ensures Flat(Singles(pieces)) == pieces
  {
    if pieces != [] {
      FlatSingles(pieces[1..]);
      assert Singles(pieces)[1..] == Singles(pieces[1..]);
    }
  }

  // ---- one item ----

  /** All slices of an item but the last one are full. */
  function Front(item: Item, max: u16): seq<Piece>
    requires Slices(item, max) != []
  {
    Slices(item, max)[..|Slices(item, max)| - 1]
  }

  function Last(item: Item, max: u16): Piece
    requires Slices(item, max) != []
  {
    Slices(item, max)[|Slices(item, max)| - 1]
  }

  /** A piece of maximum length starts a package of its own and fills it. */
  lemma FullPieceAlone(rules: Rules, open: seq<Package>, piece: Piece)
    requires RoomForOne(rules) && piece.Count() == MaxLength(rules) && forall p <- open :: p != []
    ensures FirstFit(rules, open, piece) == |open| && Accepts(rules, [], piece) && Full(rules, [piece])
  {
    hide Accepts, Full, MaxLength;
    var k := FirstFit(rules, open, piece);
    Constants(rules, piece);
    if k < |open| {
      assert open[k] in open;
      NoSpaceBehind(rules, open[k], piece);
    }
  }

  lemma NoSpaceBehind(rules: Rules, package: Package, piece: Piece)
    requires RoomForOne(rules) && package != [] && piece.Count() == MaxLength(rules)
    ensures !Accepts(rules, package, piece)
  {
    assert (package + [piece])[..|package|] == package;
  }

  /** The slicing loop yields the full slices and then places the last one like a whole item. */
  lemma {:induction false} SplitForm(rules: Rules, st: State, item: Item, done: nat)
    requires RoomForOne(rules) && MaxLength(rules) > 0 && done < item.count && Terminates(rules, item)
    requires rules.kind.Writing? ==> item.offset + item.count - LastSlice(item.count - done, MaxLength(rules)) < 0x1_0000
    requires !st.failed && forall p <- st.open :: p != []
    ensures var slices := SlicesFrom(item, MaxLength(rules), done);
            && slices != []
            && Split(rules, st, item, done) ==
               Place(rules, st.(yielded := st.yielded + Singles(slices[..|slices| - 1])), slices[|slices| - 1])
    decreases item.count - done
  {
    hide Place, Accepts, Full, MaxLength, Split, FirstFit, Terminates;
    var max := MaxLength(rules);
    var slice := Min(max, item.count - done);
    var child := Part(item, item.offset + done, slice);
    var rest := SlicesFrom(item, max, done + slice);
    SplitCases(rules, st, item, done);
    assert SlicesFrom(item, max, done) == [child] + rest;
    assert Child(rules, item, done, slice) == Some(child);
    Constants(rules, child);
    if done + slice == item.count {
      assert [child][..0] == [] && st.yielded + Singles([]) == st.yielded;
      if slice == max {
        FullPieceAlone(rules, st.open, child);
        StartPlaces(rules, st, child);
        SplitEnds(rules, st.(yielded := st.yielded + [[child]]), item);
      }
    } else {
      var next := st.(yielded := st.yielded + [[child]]);
      SplitForm(rules, next, item, done + slice);
      assert ([child] + rest)[..|rest|] == [child] + rest[..|rest| - 1];
      assert st.yielded + Singles([child] + rest[..|rest| - 1]) == next.yielded + Singles(rest[..|rest| - 1]);
    }
  }

  lemma SomeSlice(rules: Rules, item: Item)
    requires Terminates(rules, item) && Packable(rules, item)
    ensures Slices(item, MaxLength(rules)) != [] && RoomForOne(rules) && (item.count > MaxLength(rules) ==> MaxLength(rules) > 0)
  {
    if item.count > MaxLength(rules) {
      assert MaxLength(rules) > 0;
      assert SlicesFrom(item, MaxLength(rules), 0) != [];
    }
  }

  /** Placing an item yields its full slices and then places the last piece. */
  lemma PlaceItemForm(rules: Rules, st: State, item: Item)
    requires Terminates(rules, item) && Packable(rules, item)
    requires !st.failed && forall p <- st.open :: p != []
    ensures Slices(item, MaxLength(rules)) != []
    ensures PlaceItem(rules, st, item) ==
            Place(rules, st.(yielded := st.yielded + Singles(Front(item, MaxLength(rules)))), Last(item, MaxLength(rules)))
  {
    hide Place, Split, MaxLength;
    SomeSlice(rules, item);
    if item.count <= MaxLength(rules) {
      assert st.yielded + Singles([]) == st.yielded;
    } else {
      SplitForm(rules, st, item, 0);
    }
  }

  // ---- two items ----

  lemma FirstFitOne(rules: Rules, package: Package, piece: Piece)
    ensures FirstFit(rules, [package], piece) == if Accepts(rules, package, piece) then 0 else 1
  {
    hide Accepts;
    assert FirstFit(rules, [], piece) == 0;
    assert [package][1..] == [];
  }

  /** A piece of so many units leaves no room in a telegram for the shortest further item. */
  predicate Fills(rules: Rules, count: nat) {
    if rules.kind.Reading? then Max(24, 18 + count) + 12 > rules.pdu
    else 28 + count + count % 2 + 17 > rules.pdu
  }

  /**
   * A piece of `second` units fits behind one of `first` units. The read side adds the sizes before and after, each the
   * longer one of request and answer, instead of taking the one after alone.
   */
  predicate FitsBehind(rules: Rules, first: nat, second: nat) {
    if rules.kind.Reading? then Max(24, 18 + first) + Max(36, 22 + first + second) <= rules.pdu
    else 28 + first + first % 2 + 16 + second <= rules.pdu
  }

  lemma SingleSizes(rules: Rules, p: Piece, q: Piece)
    ensures Full(rules, [p]) <==> Fills(rules, p.Count())
    ensures Accepts(rules, [p], q) <==> FitsBehind(rules, p.Count(), q.Count())
  {
    assert [p][..0] == [] && ([p] + [q])[..1] == [p];
    assert Payload([p]) == p.Count() && Payload([p] + [q]) == p.Count() + q.Count();
    assert WriteTotal([p]) == 28 + p.Count();
  }

  /**
   * How the pieces of two items travel when `first` is placed first. Its last piece, unless it fills a telegram by
   * itself, is overtaken by the full slices of the second item, and by the last piece of the second item when that fills
   * a telegram and does not fit behind it.
   */
  function TwoItems(rules: Rules, first: Item, second: Item): seq<Piece>
    requires Slices(first, MaxLength(rules)) != [] && Slices(second, MaxLength(rules)) != []
  {
    var max := MaxLength(rules);
    if Fills(rules, Last(first, max).Count()) then Slices(first, max) + Slices(second, max)
    else if Overtaken(rules, first, second) then Front(first, max) + Slices(second, max) + [Last(first, max)]
    else Front(first, max) + Front(second, max) + [Last(first, max), Last(second, max)]
  }

  /** The last piece of the second item fills a telegram and does not fit behind the last piece of the first item. */
  predicate Overtaken(rules: Rules, first: Item, second: Item)
    requires Slices(first, MaxLength(rules)) != [] && Slices(second, MaxLength(rules)) != []
  {
    var m, n := Last(first, MaxLength(rules)).Count(), Last(second, MaxLength(rules)).Count();
    !Fills(rules, m) && Fills(rules, n) && !FitsBehind(rules, m, n)
  }

  /** The telegrams of two items: all pieces travel alone, but the last ones share one when there is room. */
  function TwoItemsPacked(rules: Rules, first: Item, second: Item): seq<Package>
    requires Slices(first, MaxLength(rules)) != [] && Slices(second, MaxLength(rules)) != []
  {
    var max := MaxLength(rules);
    var p, q := Last(first, max), Last(second, max);
    if !Fills(rules, p.Count()) && FitsBehind(rules, p.Count(), q.Count())
    then Singles(Front(first, max) + Front(second, max)) + [[p, q]]
    else Singles(TwoItems(rules, first, second))
  }

  /** Placing one piece on an empty list of open packages. */
  lemma PlaceFirst(rules: Rules, yielded: seq<Package>, p: Piece)
    requires RoomForOne(rules) && p.Count() <= MaxLength(rules)
    ensures Place(rules, State([], yielded, false), p) ==
            if Fills(rules, p.Count()) then State([], yielded + [[p]], false) else State([[p]], yielded, false)
  {
    hide Accepts, Full, Fills;
    Constants(rules, p);
    SingleSizes(rules, p, p);
    StartPlaces(rules, State([], yielded, false), p);
  }

  /** Placing one piece when the package of another one is open. */
  lemma PlaceSecond(rules: Rules, yielded: seq<Package>, p: Piece, q: Piece)
    requires RoomForOne(rules) && q.Count() <= MaxLength(rules)
    ensures var st := Place(rules, State([[p]], yielded, false), q);
            && !st.failed
            && st.yielded + st.open ==
               yielded + if FitsBehind(rules, p.Count(), q.Count()) then [[p, q]]
                         else if Fills(rules, q.Count()) then [[q], [p]] else [[p], [q]]
  {
    hide Accepts, Full, Fills, FitsBehind;
    var st := State([[p]], yielded, false);
    Constants(rules, q);
    SingleSizes(rules, p, q);
    SingleSizes(rules, q, q);
    FirstFitOne(rules, [p], q);
    if Accepts(rules, [p], q) {
      assert st.open[0] + [q] == [p, q] && [[p]][0 := [p, q]] == [[p, q]];
      assert Without([[p, q]], 0) == [] && yielded + [[p, q]] + [] == yielded + [[p, q]];
    } else {
      StartPlaces(rules, st, q);
      assert yielded + [[q]] + [[p]] == yielded + [[q], [p]] && [[p]] + [[q]] == [[p], [q]];
    }
  }

  lemma LastFits(rules: Rules, item: Item)
    requires Terminates(rules, item) && Packable(rules, item)
    ensures Slices(item, MaxLength(rules)) != []
    ensures Last(item, MaxLength(rules)).Count() <= MaxLength(rules)
    ensures Slices(item, MaxLength(rules)) == Front(item, MaxLength(rules)) + [Last(item, MaxLength(rules))]
  {
    SomeSlice(rules, item);
    SlicesTile(item, MaxLength(rules));
    assert Last(item, MaxLength(rules)) in Slices(item, MaxLength(rules));
  }

  /** Two items one after the other. */
  lemma RunTwo(rules: Rules, a: Item, b: Item)
    requires forall x <- [a, b] :: Terminates(rules, x) && Packable(rules, x)
    ensures Slices(a, MaxLength(rules)) != [] && Slices(b, MaxLength(rules)) != []
    ensures var st := Run(rules, [a, b]); !st.failed && st.yielded + st.open == TwoItemsPacked(rules, a, b)
  {
    hide Place, MaxLength, Fills, FitsBehind, Slices, Terminates, Packable, PlaceItem;
    var max := MaxLength(rules);
    assert a in [a, b] && b in [a, b] && [a, b][..1] == [a] && [a][..0] == [];
    SomeSlice(rules, a);
    LastFits(rules, a);
    LastFits(rules, b);
    var fa, p, fb, q := Front(a, max), Last(a, max), Front(b, max), Last(b, max);
    assert Run(rules, [a]) == PlaceItem(rules, State([], [], false), a);
    PlaceItemForm(rules, State([], [], false), a);
    assert [] + Singles(fa) == Singles(fa);
    PlaceFirst(rules, Singles(fa), p);
    assert Run(rules, [a, b]) == PlaceItem(rules, Run(rules, [a]), b);
    PlaceItemForm(rules, Run(rules, [a]), b);
    SinglesJoin(fa, p, fb, q);
    if Fills(rules, p.Count()) {
      PlaceFirst(rules, Singles(fa) + [[p]] + Singles(fb), q);
    } else {
      PlaceSecond(rules, Singles(fa) + Singles(fb), p, q);
    }
  }

  /** The orders in which the two last pieces can travel. */
  lemma SinglesJoin(fa: seq<Piece>, p: Piece, fb: seq<Piece>, q: Piece)
    ensures Singles(fa + fb) == Singles(fa) + Singles(fb)
    ensures Singles((fa + [p]) + (fb + [q])) == Singles(fa) + [[p]] + Singles(fb) + [[q]]
    ensures Singles(fa) + [[p]] + Singles(fb) + [] == Singles(fa) + [[p]] + Singles(fb)
    ensures Singles(fa) + [[p]] + Singles(fb) + [[q]] + [] == Singles(fa) + [[p]] + Singles(fb) + [[q]]
    ensures Singles(fa) + [[p]] + Singles(fb) + [] + [[q]] == Singles(fa) + [[p]] + Singles(fb) + [[q]]
    ensures Singles(fa + (fb + [q]) + [p]) == Singles(fa) + Singles(fb) + [[q], [p]]
    ensures Singles(fa + fb + [p, q]) == Singles(fa) + Singles(fb) + [[p], [q]]
  {}

  lemma {:induction false} InsertLast(x: Item, sorted: seq<Item>)
    requires forall y <- sorted :: y.count >= x.count
    ensures Insert(x, sorted) == sorted + [x]
  {
    if sorted != [] {
      InsertLast(x, sorted[1..]);
    }
  }

  /** Items that are sorted already keep their order. */
  lemma {:induction false} AlreadySorted(items: seq<Item>)
    requires Descending(items)
    ensures OrderByDescending(items) == items
  {
    if items != [] {
      AlreadySorted(items[..|items| - 1]);
      InsertLast(items[|items| - 1], items[..|items| - 1]);
    }
  }

  lemma SortTwo(x: Item, y: Item)
    ensures OrderByDescending([x, y]) == if x.count >= y.count then [x, y] else [y, x]
  {
    assert [x, y][..1] == [x] && [x][..0] == [];
    assert OrderByDescending([]) == [] && OrderByDescending([x]) == [x];
    assert [x][1..] == [] && Insert(y, []) == [y];
    assert OrderByDescending([x, y]) == Insert(y, [x]);
  }

  /** The telegrams of a call for two items, however long they are. */
  lemma PairPacked(rules: Rules, x: Item, y: Item)
    requires forall z <- [x, y] :: Terminates(rules, z) && Packable(rules, z)
    ensures Slices(x, MaxLength(rules)) != [] && Slices(y, MaxLength(rules)) != []
    ensures CreatePackages(rules, [x, y]).0 ==
            if x.count >= y.count then TwoItemsPacked(rules, x, y) else TwoItemsPacked(rules, y, x)
  {
    hide Run, Slices, TwoItemsPacked, OrderByDescending, MaxLength, Terminates, Packable;
    assert x in [x, y] && y in [x, y];
    SortTwo(x, y);
    if x.count >= y.count {
      RunTwo(rules, x, y);
    } else {
      assert forall z <- [y, x] :: z in [x, y];
      RunTwo(rules, y, x);
    }
  }

  lemma PackedFlat(rules: Rules, first: Item, second: Item)
    requires Slices(first, MaxLength(rules)) != [] && Slices(second, MaxLength(rules)) != []
    ensures Flat(TwoItemsPacked(rules, first, second)) == TwoItems(rules, first, second)
  {
    hide Fills, FitsBehind, MaxLength, Slices, Flat;
    var max := MaxLength(rules);
    var front, p, q := Front(first, max) + Front(second, max), Last(first, max), Last(second, max);
    FlatSingles(TwoItems(rules, first, second));
    FlatSingles(front);
    FlatAppends(Singles(front), [[p, q]]);
    FlatOne([p, q]);
  }

  /** And the order in which the pieces travel in them. */
  lemma PairTravels(rules: Rules, x: Item, y: Item)
    requires forall z <- [x, y] :: Terminates(rules, z) && Packable(rules, z)
    ensures Slices(x, MaxLength(rules)) != [] && Slices(y, MaxLength(rules)) != []
    ensures Pieces(rules, [x, y]) == if x.count >= y.count then TwoItems(rules, x, y) else TwoItems(rules, y, x)
  {
    hide Slices, TwoItemsPacked, TwoItems, MaxLength, Terminates, Packable, CreatePackages;
    PairPacked(rules, x, y);
    PackedFlat(rules, x, y);
    PackedFlat(rules, y, x);
  }

  // ---- items that have room in one telegram ----

  /** One telegram could carry all items in this order. */
  predicate RoomForAll(rules: Rules, items: seq<Item>) {
    RoomForOne(rules) && WriteTotal(Wholes(items)) <= rules.pdu
  }

  /** At most one package is open, and nothing overtakes: what travels so far followed by it are the items in order. */
  ghost predicate OneByOne(rules: Rules, st: State, items: seq<Item>) {
    && !st.failed && Flat(st.yielded) + Flat(st.open) == Wholes(items)
    && (st.open == [] || (|st.open| == 1 && st.open[0] != [] && WriteTotal(st.open[0]) <= WriteTotal(Wholes(items))))
  }

  lemma OneMoreTotal(package: Package, p: Piece)
    ensures WriteTotal(package + [p]) == Even(WriteTotal(package)) + WRITE_ITEM_HEADER + p.Count()
  {
    assert (package + [p])[..|package|] == package;
  }

  lemma WholesAppend(items: seq<Item>, x: Item)
    ensures Wholes(items + [x]) == Wholes(items) + [Whole(x)]
  {}

  lemma EvenMonotone(m: nat, n: nat)
    requires m <= n
    ensures Even(m) <= Even(n)
  {}

  lemma HeadersCount(package: Package)
    ensures WriteTotal(package) >= WRITE_HEADERS == WriteTotal([])
  {}

  lemma {:induction false} RunInOrder(rules: Rules, items: seq<Item>)
    requires rules.kind.Writing? && RoomForAll(rules, items) && forall x <- items :: Terminates(rules, x)
    ensures OneByOne(rules, Run(rules, items), items)
  {
    hide Place, WriteTotal, Even, Flat, Terminates, MaxLength;
    if items == [] {
      NothingYet(rules);
    } else {
      var init, last := items[..|items| - 1], items[|items| - 1];
      assert items == init + [last];
      WholesAppend(init, last);
      OneMoreTotal(Wholes(init), Whole(last));
      EvenMonotone(0, WriteTotal(Wholes(init)));
      EvenBounds(WriteTotal(Wholes(init)));
      RunInOrder(rules, init);
      HeadersCount(Wholes(init));
      ShortEnough(rules, last);
      PlaceInOrder(rules, Run(rules, init), init, last);
      assert Run(rules, items) == PlaceItem(rules, Run(rules, init), last);
    }
  }

  lemma NothingYet(rules: Rules)
    ensures OneByOne(rules, State([], [], false), [])
  {}

  lemma EvenBounds(n: nat)
    ensures n <= Even(n) <= n + 1
  {}

  lemma ShortEnough(rules: Rules, x: Item)
    requires rules.kind.Writing? && RoomForOne(rules) && WRITE_HEADERS + WRITE_ITEM_HEADER + x.count <= rules.pdu
    ensures x.count <= MaxLength(rules) && PlaceItem(rules, State([], [], false), x) == Place(rules, State([], [], false), Whole(x))
    ensures forall st :: PlaceItem(rules, st, x) == Place(rules, st, Whole(x))
  {}

  lemma PlaceInOrder(rules: Rules, st: State, items: seq<Item>, x: Item)
    requires rules.kind.Writing? && RoomForOne(rules) && OneByOne(rules, st, items) && x.count <= MaxLength(rules)
    requires Even(WriteTotal(Wholes(items))) + WRITE_ITEM_HEADER + x.count <= rules.pdu
    ensures OneByOne(rules, Place(rules, st, Whole(x)), items + [x])
  {
    hide WriteTotal, Even, Flat, Full, MaxLength, FirstFit;
    var p, next := Whole(x), Place(rules, st, Whole(x));
    WholesAppend(items, x);
    OneMoreTotal(Wholes(items), p);
    if st.open == [] {
      HeadersCount(Wholes(items));
      EvenMonotone(WRITE_HEADERS, WriteTotal(Wholes(items)));
      OneMoreTotal([], p);
      assert [] + [p] == [p];
      PlaceFirst(rules, st.yielded, p);
      FlatAppends(st.yielded, [[p]]);
      FlatOne([p]);
      FlatNone();
      assert Flat(next.yielded) + Flat(next.open) == Wholes(items) + [p];
    } else {
      var open := st.open[0];
      assert st.open == [open];
      EvenMonotone(WriteTotal(open), WriteTotal(Wholes(items)));
      OneMoreTotal(open, p);
      FirstFitOne(rules, open, p);
      assert Accepts(rules, open, p);
      FlatOne(open);
      FlatOne(open + [p]);
      FlatNone();
      FlatAppends(st.yielded, [open + [p]]);
      assert Flat(st.yielded) + (open + [p]) == Flat(st.yielded) + open + [p];
      assert Without([open + [p]], 0) == [];
      assert st.open[0 := open + [p]] == [open + [p]];
    }
  }

  lemma FlatOne(package: Package)
    ensures Flat([package]) == package
  {
    assert [package][1..] == [];
  }

  lemma FlatNone()
    ensures Flat([]) == []
  {}

  /** Writes that have room in one telegram travel whole and in sorted order, also when they take several telegrams. */
  lemma SortedTravel(rules: Rules, vars: seq<Item>)
    requires rules.kind.Writing? && RoomForAll(rules, OrderByDescending(vars)) && forall x <- vars :: Terminates(rules, x)
    ensures Pieces(rules, vars) == Wholes(OrderByDescending(vars))
    ensures forall x <- vars :: x.count <= MaxLength(rules)
  {
    hide Run, OrderByDescending, Terminates, WriteTotal;
    var sorted := OrderByDescending(vars);
    SortedKeepsItems(vars);
    RunInOrder(rules, sorted);
    FlatAppends(Run(rules, sorted).yielded, Run(rules, sorted).open);
    forall x | x in vars ensures x.count <= MaxLength(rules) {
      CountsCounted(sorted, x);
      ShortEnough(rules, x);
    }
  }

  lemma {:induction false} CountsCounted(items: seq<Item>, x: Item)
    requires x in items
    ensures WRITE_HEADERS + WRITE_ITEM_HEADER + x.count <= WriteTotal(Wholes(items))
  {
    hide WriteTotal, Even;
    var init, last := items[..|items| - 1], items[|items| - 1];
    assert items == init + [last];
    WholesAppend(init, last);
    OneMoreTotal(Wholes(init), Whole(last));
    HeadersCount(Wholes(init));
    EvenBounds(WriteTotal(Wholes(init)));
    if x != last {
      CountsCounted(init, x);
    }
  }

  // ---- the order within a package ----

  /** The pieces of a are pieces of b in the same order. */
  predicate Sub(a: seq<Piece>, b: seq<Piece>) {
    a == [] ||
    (b != [] && (Sub(a, b[..|b| - 1]) || (a[|a| - 1] == b[|b| - 1] && Sub(a[..|a| - 1], b[..|b| - 1]))))
  }

  lemma SubGrows(a: seq<Piece>, b: seq<Piece>, p: Piece)
    requires Sub(a, b)
    ensures Sub(a, b + [p]) && Sub(a + [p], b + [p])
  {
    assert (b + [p])[..|b|] == b && (a + [p])[..|a|] == a;
  }

  lemma {:induction false} SubContains(a: seq<Piece>, b: seq<Piece>)
    requires Sub(a, b)
    ensures forall p <- a :: p in b
    decreases |b|
  {
    if a != [] {
      if Sub(a, b[..|b| - 1]) {
        SubContains(a, b[..|b| - 1]);
      } else {
        SubContains(a[..|a| - 1], b[..|b| - 1]);
        assert a == a[..|a| - 1] + [a[|a| - 1]];
      }
    }
  }

  lemma NoneSub(b: seq<Piece>)
    ensures Sub([], b)
  {}

  /** Of pieces that are all different, only the whole list contains every piece. */
  lemma {:induction false} SubAll(a: seq<Piece>, b: seq<Piece>)
    requires Sub(a, b) && Distinct(b) && forall p <- b :: p in a
    ensures a == b
    decreases |b|
  {
    if b != [] {
      var init, last := b[..|b| - 1], b[|b| - 1];
      assert last in a && last !in init;
      if Sub(a, init) {
        SubContains(a, init);
      } else {
        assert a == a[..|a| - 1] + [last];
        forall p | p in init ensures p in a[..|a| - 1] {
          assert p in b;
        }
        SubAll(a[..|a| - 1], init);
      }
    }
  }

  ghost predicate AllSub(packages: seq<Package>, pieces: seq<Piece>) {
    forall package <- packages :: Sub(package, pieces)
  }

  lemma PlaceSub(rules: Rules, st: State, p: Piece, pieces: seq<Piece>)
    requires AllSub(st.open, pieces) && AllSub(st.yielded, pieces)
    ensures var next := Place(rules, st, p); AllSub(next.open, pieces + [p]) && AllSub(next.yielded, pieces + [p])
  {
    hide Accepts, Full, Sub, FirstFit;
    forall a | Sub(a, pieces) ensures Sub(a, pieces + [p]) && Sub(a + [p], pieces + [p]) {
      SubGrows(a, pieces, p);
    }
    NoneSub(pieces);
    assert [] + [p] == [p];
    var k := FirstFit(rules, st.open, p);
    if k < |st.open| {
      assert Sub(st.open[k], pieces);
    }
  }

  /** Items that are not cut keep their order in every package. */
  lemma {:induction false} RunSub(rules: Rules, items: seq<Item>)
    requires forall x <- items :: Terminates(rules, x) && x.count <= MaxLength(rules)
    ensures AllSub(Run(rules, items).open, Wholes(items)) && AllSub(Run(rules, items).yielded, Wholes(items))
  {
    hide Place, Terminates, MaxLength, Sub;
    if items != [] {
      var init, last := items[..|items| - 1], items[|items| - 1];
      assert items == init + [last];
      WholesAppend(init, last);
      RunSub(rules, init);
      PlaceSub(rules, Run(rules, init), Whole(last), Wholes(init));
      if Run(rules, init).failed {
        forall a | Sub(a, Wholes(init)) ensures Sub(a, Wholes(items)) {
          SubGrows(a, Wholes(init), Whole(last));
        }
      }
    }
  }

  // ---- calls that take one telegram ----

  lemma PlaceCounts(rules: Rules, st: State, p: Piece)
    requires !Place(rules, st, p).failed
    ensures var next := Place(rules, st, p);
            && |next.yielded| + |next.open| >= |st.yielded| + |st.open|
            && |next.yielded| + |next.open| > |st.yielded|
  {
    hide Accepts, Full;
  }

  /** A call that cuts an item takes at least two telegrams. */
  lemma {:induction false} CutTakesTwo(rules: Rules, items: seq<Item>)
    requires Distinct(items) && forall x <- items :: Terminates(rules, x) && Packable(rules, x)
    ensures var st := Run(rules, items);
            && (items != [] ==> |st.yielded| + |st.open| >= 1)
            && ((exists x <- items :: x.count > MaxLength(rules)) ==> |st.yielded| + |st.open| >= 2)
  {
    hide Place, Terminates, Packable, MaxLength, Slices, PlaceItem, Filled, Full;
    if items != [] {
      var init, last := items[..|items| - 1], items[|items| - 1];
      var st := Run(rules, init);
      assert items == init + [last];
      CutTakesTwo(rules, init);
      RunFails(rules, items);
      RunAdds(rules, init, last);
      assert Run(rules, items) == PlaceItem(rules, st, last);
      PlaceItemForm(rules, st, last);
      var front := Front(last, MaxLength(rules));
      PlaceCounts(rules, st.(yielded := st.yielded + Singles(front)), Last(last, MaxLength(rules)));
      if last.count > MaxLength(rules) {
        CutHasFront(rules, last);
      }
    }
  }

  lemma CutHasFront(rules: Rules, x: Item)
    requires Terminates(rules, x) && Packable(rules, x) && x.count > MaxLength(rules)
    ensures |Slices(x, MaxLength(rules))| >= 2
  {
    SomeSlice(rules, x);
    assert SlicesFrom(x, MaxLength(rules), MaxLength(rules)) != [];
  }

  /** A call that takes one telegram sends all items whole and in sorted order. */
  lemma OneTelegram(rules: Rules, vars: seq<Item>)
    requires Distinct(vars) && forall x <- vars :: Terminates(rules, x) && Packable(rules, x)
    requires |CreatePackages(rules, vars).0| == 1
    ensures CreatePackages(rules, vars).0 == [Wholes(OrderByDescending(vars))]
  {
    hide Run, OrderByDescending, Terminates, Packable, MaxLength, Sub;
    var sorted, packages := OrderByDescending(vars), CreatePackages(rules, vars).0;
    SortedKeepsItems(vars);
    SortedDistinct(vars);
    CutTakesTwo(rules, sorted);
    RunFails(rules, sorted);
    RunSub(rules, sorted);
    FlatOne(packages[0]);
    assert packages == [packages[0]];
    forall p | p in Wholes(sorted) ensures p in packages[0] {
      PiecesAreSlices(rules, vars, p);
    }
    SubAll(packages[0], Wholes(sorted));
  }
}
