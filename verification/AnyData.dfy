/** Sorting, cutting and packing do not look at the data of the items. */
module AnyData {
  import opened Basics
  import opened Packing
  import opened Generator
  import opened Coverage

  /** The item without its data. */
  function Bare(x: Item): Item { x.(data := []) }

  function BareItems(items: seq<Item>): seq<Item> {
    seq(|items|, i requires 0 <= i < |items| => Bare(items[i]))
  }

  function BarePiece(p: Piece): Piece { p.(item := Bare(p.item)) }

  function BarePackage(package: Package): Package {
    seq(|package|, i requires 0 <= i < |package| => BarePiece(package[i]))
  }

  function BarePackages(packages: seq<Package>): seq<Package> {
    seq(|packages|, i requires 0 <= i < |packages| => BarePackage(packages[i]))
  }

  function BareState(st: State): State { State(BarePackages(st.open), BarePackages(st.yielded), st.failed) }

  // ---- packages ----

  lemma {:induction false} BareTotals(package: Package)
    ensures Payload(BarePackage(package)) == Payload(package)
    ensures WriteTotal(BarePackage(package)) == WriteTotal(package)
  {
    if package != [] {
      var front := package[..|package| - 1];
      BareTotals(front);
      assert BarePackage(package)[..|front|] == BarePackage(front);
    }
  }

  lemma BareAppend(package: Package, p: Piece)
    ensures BarePackage(package + [p]) == BarePackage(package) + [BarePiece(p)]
  {}

  lemma BareAccepts(rules: Rules, package: Package, p: Piece)
    ensures Accepts(rules, BarePackage(package), BarePiece(p)) == Accepts(rules, package, p)
  {
    BareTotals(package);
    BareTotals(package + [p]);
    BareAppend(package, p);
  }

  lemma BareFull(rules: Rules, package: Package)
    ensures Full(rules, BarePackage(package)) == Full(rules, package)
  {
    BareTotals(package);
  }

  lemma BareFirstFit(rules: Rules, open: seq<Package>, p: Piece)
    ensures FirstFit(rules, BarePackages(open), BarePiece(p)) == FirstFit(rules, open, p)
  {
    hide Accepts, BarePackage, BarePiece;
    forall i | 0 <= i < |open| ensures Accepts(rules, BarePackages(open)[i], BarePiece(p)) == Accepts(rules, open[i], p) {
      BareAccepts(rules, open[i], p);
    }
  }

  // ---- placing ----

  lemma BareSettle(rules: Rules, st: State, k: nat)
    requires k < |st.open|
    ensures Settle(rules, BareState(st), k) == BareState(Settle(rules, st, k))
  {
    hide Full, BarePackage;
    BareFull(rules, st.open[k]);
    assert BarePackages(Without(st.open, k)) == Without(BarePackages(st.open), k);
    assert BarePackages(st.yielded + [st.open[k]]) == BarePackages(st.yielded) + [BarePackage(st.open[k])];
  }

  lemma BarePlace(rules: Rules, st: State, p: Piece)
    ensures Place(rules, BareState(st), BarePiece(p)) == BareState(Place(rules, st, p))
  {
    hide Accepts, FirstFit, Settle, BarePackage, BarePiece;
    var k := FirstFit(rules, st.open, p);
    BareFirstFit(rules, st.open, p);
    BareNone();
    BareAccepts(rules, [], p);
    if k < |st.open| {
      var grown := st.open[k := st.open[k] + [p]];
      BareAppend(st.open[k], p);
      assert BarePackages(grown) == BarePackages(st.open)[k := BarePackages(st.open)[k] + [BarePiece(p)]];
      BareSettle(rules, st.(open := grown), k);
    } else {
      BareAppend([], p);
      assert [] + [p] == [p] && [] + [BarePiece(p)] == [BarePiece(p)];
      assert BarePackages(st.open + [[p]]) == BarePackages(st.open) + [[BarePiece(p)]];
      BareSettle(rules, st.(open := st.open + [[p]]), |st.open|);
    }
  }

  lemma BareNone()
    ensures BarePackage([]) == []
  {}

  lemma BareYield(st: State, p: Piece)
    ensures BareState(st.(yielded := st.yielded + [[p]])) ==
            BareState(st).(yielded := BareState(st).yielded + [[BarePiece(p)]])
  {
    assert BarePackage([p]) == [BarePiece(p)];
  }

  lemma {:induction false} BareSplit(rules: Rules, st: State, item: Item, done: nat)
    requires Terminates(rules, item) && done <= item.count && !st.failed
    ensures Split(rules, BareState(st), Bare(item), done) == BareState(Split(rules, st, item, done))
    decreases item.count - done
  {
    hide Place, Accepts, Split, MaxLength, BareState, BarePackages, BarePackage;
    if done == item.count {
      SplitEnds(rules, st, item);
      SplitEnds(rules, BareState(st), Bare(item));
    } else {
      var slice := Min(MaxLength(rules), item.count - done);
      var child := Child(rules, item, done, slice);
      BareFails(st);
      SplitCases(rules, st, item, done);
      SplitCases(rules, BareState(st), Bare(item), done);
      if child.Some? {
        BarePlace(rules, st, child.value);
        BareNone();
        BareAccepts(rules, [], child.value);
        BareYield(st, child.value);
        if slice == MaxLength(rules) && Accepts(rules, [], child.value) {
          TurnAdvances(rules, st, item, done);
          BareSplit(rules, st.(yielded := st.yielded + [[child.value]]), item, done + slice);
        }
      }
    }
  }

  lemma BareFails(st: State)
    ensures BareState(st).failed == st.failed && BareState(st.(failed := true)) == BareState(st).(failed := true)
  {}

  lemma BarePlaceItem(rules: Rules, st: State, item: Item)
    requires Terminates(rules, item) && !st.failed
    ensures PlaceItem(rules, BareState(st), Bare(item)) == BareState(PlaceItem(rules, st, item))
  {
    hide Place, Split, MaxLength, BareState;
    BareSplit(rules, st, item, 0);
    BarePlace(rules, st, Whole(item));
  }

  // ---- the run ----

  lemma {:induction false} BareRun(rules: Rules, items: seq<Item>)
    requires forall x <- items :: Terminates(rules, x)
    ensures forall x <- BareItems(items) :: Terminates(rules, x)
    ensures Run(rules, BareItems(items)) == BareState(Run(rules, items))
  {
    hide PlaceItem, BarePackages;
    if items == [] {
      BareNoPackages();
    } else {
      var init, last := items[..|items| - 1], items[|items| - 1];
      assert BareItems(items)[..|init|] == BareItems(init);
      BareRun(rules, init);
      if !Run(rules, init).failed {
        BarePlaceItem(rules, Run(rules, init), last);
      }
    }
  }

  lemma BareNoPackages()
    ensures BarePackages([]) == []
  {}

  lemma {:induction false} BareInsert(x: Item, sorted: seq<Item>)
    ensures Insert(Bare(x), BareItems(sorted)) == BareItems(Insert(x, sorted))
  {
    if sorted != [] && sorted[0].count >= x.count {
      BareInsert(x, sorted[1..]);
      assert BareItems(sorted)[1..] == BareItems(sorted[1..]);
      assert BareItems([sorted[0]] + Insert(x, sorted[1..])) == [Bare(sorted[0])] + BareItems(Insert(x, sorted[1..]));
    } else {
      assert BareItems([x] + sorted) == [Bare(x)] + BareItems(sorted);
    }
  }

  lemma {:induction false} BareSort(items: seq<Item>)
    ensures OrderByDescending(BareItems(items)) == BareItems(OrderByDescending(items))
  {
    if items != [] {
      var init, last := items[..|items| - 1], items[|items| - 1];
      assert BareItems(items)[..|init|] == BareItems(init);
      BareSort(init);
      BareInsert(last, OrderByDescending(init));
    }
  }

  lemma {:induction false} BareFlat(packages: seq<Package>)
    ensures Flat(BarePackages(packages)) == BarePackage(Flat(packages))
  {
    if packages == [] {
      BareNone();
    } else {
      BareFlat(packages[1..]);
      assert BarePackages(packages)[1..] == BarePackages(packages[1..]);
    }
  }

  /** The items without their data travel like the items. */
  lemma BareTravel(rules: Rules, vars: seq<Item>)
    requires forall x <- vars :: Terminates(rules, x)
    ensures forall x <- BareItems(vars) :: Terminates(rules, x)
    ensures Pieces(rules, BareItems(vars)) == BarePackage(Pieces(rules, vars))
  {
    hide Run, OrderByDescending, BareItems, BarePackage, Flat, Terminates;
    var sorted := OrderByDescending(vars);
    SortedKeepsItems(vars);
    BareRun(rules, vars);
    BareRun(rules, sorted);
    BareSort(vars);
    var st := Run(rules, sorted);
    assert BarePackages(st.yielded + st.open) == BarePackages(st.yielded) + BarePackages(st.open);
    BareFlat(CreatePackages(rules, vars).0);
  }

  // ---- the same items with other data ----

  /** The same items, each with other data of the same length. */
  ghost predicate OtherData(vars: seq<Item>, other: seq<Item>) {
    BareItems(vars) == BareItems(other) && forall i | 0 <= i < |vars| && i < |other| :: |vars[i].data| == |other[i].data|
  }

  /** With other data the same pieces travel in the same order. */
  lemma SameTravel(rules: Rules, vars: seq<Item>, other: seq<Item>)
    requires OtherData(vars, other) && forall x <- vars :: Terminates(rules, x)
    ensures forall x <- other :: Terminates(rules, x)
    ensures BarePackage(Pieces(rules, vars)) == BarePackage(Pieces(rules, other))
  {
    hide Pieces, BarePackage;
    forall x | x in other ensures Terminates(rules, x) {
      var i :| 0 <= i < |other| && other[i] == x;
      assert Bare(vars[i]) == BareItems(vars)[i] == BareItems(other)[i] == Bare(other[i]);
      assert vars[i] in vars;
    }
    BareTravel(rules, vars);
    BareTravel(rules, other);
  }
}
