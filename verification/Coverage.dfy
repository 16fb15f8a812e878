/** Nothing is lost, duplicated or reordered within an item by the package generators. */
module Coverage {
  import opened Basics
  import opened Packing
  import opened Generator

  /** All pieces of the packages, in the order in which they travel. */
  function Flat(packages: seq<Package>): seq<Piece> {
    if packages == [] then [] else packages[0] + Flat(packages[1..])
  }

  /** The pieces that belong to item x, in order. */
  function Of(pieces: seq<Piece>, x: Item): seq<Piece> {
    if pieces == [] then []
    else (if pieces[0].item == x then [pieces[0]] else []) + Of(pieces[1..], x)
  }

  lemma {:induction false} FlatAppends(a: seq<Package>, b: seq<Package>)
    ensures Flat(a + b) == Flat(a) + Flat(b)
  {
    if a == [] {
      assert a + b == b;
    } else {
      FlatAppends(a[1..], b);
      assert (a + b)[1..] == a[1..] + b;
      assert a[0] + (Flat(a[1..]) + Flat(b)) == (a[0] + Flat(a[1..])) + Flat(b);
    }
  }

  lemma {:induction false} OfAppends(a: seq<Piece>, b: seq<Piece>, x: Item)
    ensures Of(a + b, x) == Of(a, x) + Of(b, x)
  {
    if a == [] {
      assert a + b == b;
    } else {
      var head := if a[0].item == x then [a[0]] else [];
      OfAppends(a[1..], b, x);
      assert (a + b)[1..] == a[1..] + b;
      assert head + (Of(a[1..], x) + Of(b, x)) == (head + Of(a[1..], x)) + Of(b, x);
    }
  }

  lemma {:induction false} OfContains(pieces: seq<Piece>, x: Item)
    ensures forall p :: p in Of(pieces, x) <==> p in pieces && p.item == x
  {
    if pieces != [] {
      OfContains(pieces[1..], x);
      assert pieces == [pieces[0]] + pieces[1..];
    }
  }

  function Yielded(st: State, x: Item): seq<Piece> { Of(Flat(st.yielded), x) }

  function Held(st: State, x: Item): seq<Piece> { Of(Flat(st.open), x) }

  /** Every package is non-empty and filled by TryAdd; a full one is never left open. */
  ghost predicate Sound(rules: Rules, st: State) {
    && !st.failed
    && (forall p <- st.open :: p != [] && Filled(rules, p) && !Full(rules, p))
    && (forall p <- st.yielded :: p != [] && Filled(rules, p))
  }

  /** Cutting the list of packages at k. */
  lemma Parts(open: seq<Package>, k: nat, x: Item)
    requires k < |open|
    ensures Of(Flat(open), x) == Of(Flat(open[..k]), x) + Of(open[k], x) + Of(Flat(open[k + 1..]), x)
  {
    assert open == open[..k] + ([open[k]] + open[k + 1..]);
    FlatAppends(open[..k], [open[k]] + open[k + 1..]);
    assert ([open[k]] + open[k + 1..])[1..] == open[k + 1..];
    OfAppends(Flat(open[..k]), open[k] + Flat(open[k + 1..]), x);
    OfAppends(open[k], Flat(open[k + 1..]), x);
  }

  lemma YieldOne(st: State, package: Package, x: Item)
    ensures Yielded(st.(yielded := st.yielded + [package]), x) == Yielded(st, x) + Of(package, x)
  {
    FlatAppends(st.yielded, [package]);
    assert Flat([package]) == package;
    OfAppends(Flat(st.yielded), package, x);
  }

  lemma SettleKeeps(rules: Rules, st: State, k: nat, x: Item)
    requires k < |st.open| && |Held(st, x)| <= 1
    ensures var next := Settle(rules, st, k);
            |Held(next, x)| <= 1 && Yielded(next, x) + Held(next, x) == Yielded(st, x) + Held(st, x)
  {
    hide Of, Flat, Full;
    if Full(rules, st.open[k]) {
      Parts(st.open, k, x);
      YieldOne(st, st.open[k], x);
      FlatAppends(st.open[..k], st.open[k + 1..]);
      OfAppends(Flat(st.open[..k]), Flat(st.open[k + 1..]), x);
      var next := Settle(rules, st, k);
      assert Held(next, x) == Of(Flat(st.open[..k]), x) + Of(Flat(st.open[k + 1..]), x);
      if Of(st.open[k], x) != [] {
        assert Held(next, x) == [] && Held(st, x) == Of(st.open[k], x);
      } else {
        assert Held(next, x) == Held(st, x);
      }
    }
  }

  lemma GrowKeeps(open: seq<Package>, k: nat, piece: Piece, x: Item)
    requires k < |open|
    requires piece.item == x ==> Of(Flat(open), x) == []
    ensures Of(Flat(open[k := open[k] + [piece]]), x) == if piece.item == x then [piece] else Of(Flat(open), x)
  {
    hide Flat;
    var grown := open[k := open[k] + [piece]];
    Parts(open, k, x);
    Parts(grown, k, x);
    assert grown[..k] == open[..k] && grown[k + 1..] == open[k + 1..];
    OfAppends(open[k], [piece], x);
  }

  /** Placing a piece adds exactly that piece to its item and leaves all other items alone. */
  lemma PlaceAdds(rules: Rules, st: State, piece: Piece, x: Item)
    requires |Held(st, x)| <= 1 && (piece.item == x ==> Held(st, x) == [])
    requires !Place(rules, st, piece).failed
    ensures var next := Place(rules, st, piece);
            && |Held(next, x)| <= 1
            && Yielded(next, x) + Held(next, x) == Yielded(st, x) + (if piece.item == x then [piece] else Held(st, x))
  {
    hide Of, Flat, Settle, FirstFit, Accepts;
    var k := FirstFit(rules, st.open, piece);
    if k < |st.open| {
      GrowKeeps(st.open, k, piece, x);
      SettleKeeps(rules, st.(open := st.open[k := st.open[k] + [piece]]), k, x);
    } else if Accepts(rules, [], piece) {
      OpenAdds(st.open, piece, x);
      SettleKeeps(rules, st.(open := st.open + [[piece]]), |st.open|, x);
    }
  }

  lemma OpenAdds(open: seq<Package>, piece: Piece, x: Item)
    ensures Of(Flat(open + [[piece]]), x) == Of(Flat(open), x) + if piece.item == x then [piece] else []
  {
    FlatAppends(open, [[piece]]);
    assert Flat([[piece]]) == [piece] + Flat([[piece]][1..]) == [piece];
    assert Of([piece], x) == (if piece.item == x then [piece] else []) + Of([piece][1..], x);
    OfAppends(Flat(open), [piece], x);
  }

  lemma FilledGrows(rules: Rules, package: Package, piece: Piece)
    requires Filled(rules, package) && Accepts(rules, package, piece)
    ensures Filled(rules, package + [piece])
  {
    hide Accepts;
    assert (package + [piece])[..|package|] == package;
  }

  lemma FilledEmpty(rules: Rules)
    ensures Filled(rules, [])
  {}

  lemma SettleSound(rules: Rules, st: State, k: nat)
    requires !st.failed && k < |st.open| && st.open[k] != [] && Filled(rules, st.open[k])
    requires Sound(rules, st.(open := Without(st.open, k)))
    ensures Sound(rules, Settle(rules, st, k))
  {
    hide Filled, Full;
    var rest := Without(st.open, k);
    forall i | 0 <= i < |st.open| && i != k
      ensures st.open[i] != [] && Filled(rules, st.open[i]) && !Full(rules, st.open[i])
    {
      assert st.open[i] == rest[if i < k then i else i - 1] && st.open[i] in rest;
    }
  }

  lemma PlaceSound(rules: Rules, st: State, piece: Piece)
    requires Sound(rules, st) && !Place(rules, st, piece).failed
    ensures Sound(rules, Place(rules, st, piece))
  {
    hide Filled, Full, Accepts;
    var k := FirstFit(rules, st.open, piece);
    if k < |st.open| {
      var grown := st.open[k := st.open[k] + [piece]];
      FilledGrows(rules, st.open[k], piece);
      assert Without(grown, k) == Without(st.open, k);
      SettleSound(rules, st.(open := grown), k);
    } else {
      assert [] + [piece] == [piece];
      FilledEmpty(rules);
      FilledGrows(rules, [], piece);
      assert Without(st.open + [[piece]], k) == st.open;
      SettleSound(rules, st.(open := st.open + [[piece]]), k);
    }
  }

  /** The slicing loop adds the item's remaining slices in order. */
  lemma {:induction false} SplitAdds(rules: Rules, st: State, item: Item, done: nat, x: Item)
    requires done <= item.count && MaxLength(rules) > 0 && !st.failed
    requires |Held(st, x)| <= 1 && (item == x ==> Held(st, x) == [])
    requires !Split(rules, st, item, done).failed
    ensures var next := Split(rules, st, item, done);
            && |Held(next, x)| <= 1
            && Yielded(next, x) + Held(next, x) ==
                 Yielded(st, x) + (if item == x then SlicesFrom(item, MaxLength(rules), done) else Held(st, x))
    decreases item.count - done
  {
    hide Place, Accepts, Split, MaxLength, Flat, Of, Slice;
    if done < item.count {
      var slice := Min(MaxLength(rules), item.count - done);
      var child := Part(item, item.offset + done, slice);
      SplitCases(rules, st, item, done);
      assert SlicesFrom(item, MaxLength(rules), done) == [child] + SlicesFrom(item, MaxLength(rules), done + slice);
      if slice < MaxLength(rules) {
        PlaceAdds(rules, st, child, x);
      } else {
        YieldSlice(st, child, x);
        SplitAdds(rules, st.(yielded := st.yielded + [[child]]), item, done + slice, x);
      }
    } else {
      SplitEnds(rules, st, item);
    }
  }

  lemma YieldSlice(st: State, child: Piece, x: Item)
    ensures Yielded(st.(yielded := st.yielded + [[child]]), x) == Yielded(st, x) + if child.item == x then [child] else []
  {
    YieldOne(st, [child], x);
    assert Of([child], x) == (if child.item == x then [child] else []) + Of([child][1..], x);
  }

  lemma {:induction false} SplitSound(rules: Rules, st: State, item: Item, done: nat)
    requires Sound(rules, st) && done <= item.count && Terminates(rules, item) && !Split(rules, st, item, done).failed
    ensures Sound(rules, Split(rules, st, item, done))
    decreases item.count - done
  {
    hide Filled, Full, Accepts, Place, MaxLength, Split;
    if done < item.count {
      var (next, done') := Slice(rules, st, item, done);
      var slice := Min(MaxLength(rules), item.count - done);
      SplitTurn(rules, st, item, done);
      var child := Child(rules, item, done, slice).value;
      if slice < MaxLength(rules) {
        PlaceSound(rules, st, child);
      } else {
        assert [] + [child] == [child];
        FilledEmpty(rules);
        FilledGrows(rules, [], child);
      }
      if done' < item.count {
        TurnAdvances(rules, st, item, done);
        SplitSound(rules, next, item, done');
      }
    } else {
      SplitEnds(rules, st, item);
    }
  }

  /** With a maximum length of zero the first turn throws. */
  lemma SplitNeedsLength(rules: Rules, st: State, item: Item)
    requires Terminates(rules, item) && !st.failed && item.count > 0 && !Split(rules, st, item, 0).failed
    ensures MaxLength(rules) > 0
  {
    hide Place, Accepts, Split;
    SplitTurn(rules, st, item, 0);
    TurnAdvances(rules, st, item, 0);
  }

  lemma PlaceItemAdds(rules: Rules, st: State, item: Item, x: Item)
    requires Terminates(rules, item) && !st.failed && !PlaceItem(rules, st, item).failed
    requires |Held(st, x)| <= 1 && (item == x ==> Held(st, x) == [])
    ensures var next := PlaceItem(rules, st, item);
            && |Held(next, x)| <= 1
            && Yielded(next, x) + Held(next, x) ==
                 Yielded(st, x) + (if item == x then Slices(item, MaxLength(rules)) else Held(st, x))
  {
    hide Place, Split, Accepts;
    if item.count <= MaxLength(rules) {
      PlaceAdds(rules, st, Whole(item), x);
    } else {
      SplitNeedsLength(rules, st, item);
      SplitAdds(rules, st, item, 0, x);
    }
  }

  lemma {:induction false} RunAdds(rules: Rules, items: seq<Item>, x: Item)
    requires Distinct(items) && (forall y <- items :: Terminates(rules, y)) && !Run(rules, items).failed
    ensures Sound(rules, Run(rules, items))
    ensures var st := Run(rules, items);
            && |Held(st, x)| <= 1
            && Yielded(st, x) + Held(st, x) == if x in items then Slices(x, MaxLength(rules)) else []
  {
    if items != [] {
      var init, last := items[..|items| - 1], items[|items| - 1];
      var st := Run(rules, init);
      assert items == init + [last];
      assert last !in init;
      RunAdds(rules, init, x);
      PlaceItemAdds(rules, st, last, x);
      if last.count > MaxLength(rules) {
        SplitSound(rules, st, last, 0);
      } else {
        PlaceSound(rules, st, Whole(last));
      }
    }
  }

  lemma SortedDistinct(items: seq<Item>)
    requires Distinct(items)
    ensures Distinct(OrderByDescending(items))
  {
    var sorted := OrderByDescending(items);
    SortedKeepsItems(items);
    DistinctMultiset(items);
    forall i, j | 0 <= i < j < |sorted| ensures sorted[i] != sorted[j] {
      if sorted[i] == sorted[j] {
        TwiceInMultiset(sorted, i, j);
      }
    }
  }

  lemma {:induction false} DistinctMultiset(s: seq<Item>)
    requires Distinct(s)
    ensures forall x :: multiset(s)[x] <= 1
  {
    if s != [] {
      var init, last := s[..|s| - 1], s[|s| - 1];
      assert s == init + [last];
      DistinctMultiset(init);
      assert last !in init;
      assert last !in multiset(init);
    }
  }

  lemma TwiceInMultiset(s: seq<Item>, i: nat, j: nat)
    requires i < j < |s| && s[i] == s[j]
    ensures multiset(s)[s[i]] >= 2
  {
    assert s == s[..i] + [s[i]] + s[i + 1..j] + [s[j]] + s[j + 1..];
  }

  /**
   * The packages carry every requested item exactly once, whole or as its slices in increasing order,
   * and nothing else; every package is non-empty and filled within its limits.
   */
  lemma NothingLostOrDuplicated(rules: Rules, vars: seq<Item>, x: Item)
    requires Distinct(vars) && forall y <- vars :: Terminates(rules, y) && Packable(rules, y)
    ensures var (packages, failed) := CreatePackages(rules, vars);
            && !failed
            && Of(Flat(packages), x) == (if x in vars then Slices(x, MaxLength(rules)) else [])
            && (forall p <- packages :: p != [] && Filled(rules, p))
  {
    GeneratorSucceeds(rules, vars);
    SortedKeepsItems(vars);
    SortedDistinct(vars);
    var sorted := OrderByDescending(vars);
    var st := Run(rules, sorted);
    RunAdds(rules, sorted, x);
    FlatAppends(st.yielded, st.open);
    OfAppends(Flat(st.yielded), Flat(st.open), x);
  }

  /** Everything that travels in a call. */
  function Pieces(rules: Rules, vars: seq<Item>): seq<Piece>
    requires forall x <- vars :: Terminates(rules, x)
  {
    Flat(CreatePackages(rules, vars).0)
  }

  /** Every item whole, in this order. */
  function Wholes(items: seq<Item>): seq<Piece> {
    seq(|items|, i requires 0 <= i < |items| => Whole(items[i]))
  }

  /** The pieces that travel are exactly the slices of the requested items. */
  lemma PiecesAreSlices(rules: Rules, vars: seq<Item>, p: Piece)
    requires Distinct(vars) && forall y <- vars :: Terminates(rules, y) && Packable(rules, y)
    ensures p in Pieces(rules, vars) <==> p.item in vars && p in Slices(p.item, MaxLength(rules))
  {
    NothingLostOrDuplicated(rules, vars, p.item);
    OfContains(Pieces(rules, vars), p.item);
  }

  // ---- also true of the packages yielded before an exception ----

  /** Only items that are too long have children, and a child stays inside its parent. */
  predicate Within(rules: Rules, p: Piece) {
    p.Part? ==>
      && p.item.count > MaxLength(rules) > 0 && 0 < p.length
      && p.item.offset <= p.start && p.start + p.length <= p.item.offset + p.item.count
  }

  predicate Requested(rules: Rules, package: Package, items: seq<Item>) {
    forall p <- package :: p.item in items && Within(rules, p)
  }

  predicate Genuine(rules: Rules, packages: seq<Package>, items: seq<Item>) {
    forall package <- packages :: Requested(rules, package, items)
  }

  lemma GrownRequested(rules: Rules, package: Package, piece: Piece, items: seq<Item>)
    requires Requested(rules, package, items) && piece.item in items && Within(rules, piece)
    ensures Requested(rules, package + [piece], items)
  {}

  lemma NoneRequested(rules: Rules, items: seq<Item>)
    ensures Requested(rules, [], items)
  {}

  lemma SettleGenuine(rules: Rules, st: State, k: nat, items: seq<Item>)
    requires k < |st.open| && Genuine(rules, st.open, items) && Genuine(rules, st.yielded, items)
    ensures var next := Settle(rules, st, k); Genuine(rules, next.open, items) && Genuine(rules, next.yielded, items)
  {
    hide Full, Requested;
  }

  lemma PlaceGenuine(rules: Rules, st: State, piece: Piece, items: seq<Item>)
    requires Genuine(rules, st.open, items) && Genuine(rules, st.yielded, items) && piece.item in items && Within(rules, piece)
    ensures var next := Place(rules, st, piece); Genuine(rules, next.open, items) && Genuine(rules, next.yielded, items)
  {
    hide Accepts, Requested, Settle, FirstFit;
    NoneRequested(rules, items);
    var k := FirstFit(rules, st.open, piece);
    if k < |st.open| {
      GrownRequested(rules, st.open[k], piece, items);
      SettleGenuine(rules, st.(open := st.open[k := st.open[k] + [piece]]), k, items);
    } else {
      GrownRequested(rules, [], piece, items);
      assert [] + [piece] == [piece];
      SettleGenuine(rules, st.(open := st.open + [[piece]]), |st.open|, items);
    }
  }

  lemma {:induction false} SplitGenuine(rules: Rules, st: State, item: Item, done: nat, items: seq<Item>)
    requires Genuine(rules, st.open, items) && Genuine(rules, st.yielded, items) && item in items && Terminates(rules, item)
    requires item.count > MaxLength(rules) && done <= item.count && !st.failed
    ensures var next := Split(rules, st, item, done); Genuine(rules, next.open, items) && Genuine(rules, next.yielded, items)
    decreases item.count - done
  {
    hide Accepts, Requested, Place, Split, MaxLength;
    if done == item.count {
      SplitEnds(rules, st, item);
    } else {
      SplitCases(rules, st, item, done);
      TurnAdvances(rules, st, item, done);
      var slice := Min(MaxLength(rules), item.count - done);
      var child := Child(rules, item, done, slice);
      if child.Some? && slice < MaxLength(rules) {
        PlaceGenuine(rules, st, child.value, items);
      } else if child.Some? && Accepts(rules, [], child.value) {
        NoneRequested(rules, items);
        GrownRequested(rules, [], child.value, items);
        assert [] + [child.value] == [child.value];
        SplitGenuine(rules, st.(yielded := st.yielded + [[child.value]]), item, done + slice, items);
      }
    }
  }

  lemma {:induction false} RunGenuine(rules: Rules, run: seq<Item>, items: seq<Item>)
    requires (forall x <- run :: Terminates(rules, x)) && forall x <- run :: x in items
    ensures Genuine(rules, Run(rules, run).open, items) && Genuine(rules, Run(rules, run).yielded, items)
  {
    if run != [] {
      var init, last := run[..|run| - 1], run[|run| - 1];
      RunGenuine(rules, init, items);
      PlaceGenuine(rules, Run(rules, init), Whole(last), items);
      if last.count > MaxLength(rules) && !Run(rules, init).failed {
        SplitGenuine(rules, Run(rules, init), last, 0, items);
      }
    }
  }

  // ---- what is yielded before the end is full ----

  ghost predicate AllFull(rules: Rules, packages: seq<Package>) {
    forall package <- packages :: Full(rules, package)
  }

  lemma PlaceFull(rules: Rules, st: State, piece: Piece)
    requires AllFull(rules, st.yielded)
    ensures AllFull(rules, Place(rules, st, piece).yielded)
  {
    hide Accepts, Full, FirstFit;
  }

  lemma {:induction false} SplitFull(rules: Rules, st: State, item: Item, done: nat)
    requires AllFull(rules, st.yielded) && Terminates(rules, item) && done <= item.count && !st.failed
    ensures AllFull(rules, Split(rules, st, item, done).yielded)
    decreases item.count - done
  {
    hide Accepts, Full, Place, Split, MaxLength;
    if done == item.count {
      SplitEnds(rules, st, item);
    } else {
      SplitCases(rules, st, item, done);
      TurnAdvances(rules, st, item, done);
      var slice := Min(MaxLength(rules), item.count - done);
      var child := Child(rules, item, done, slice);
      if child.Some? && slice < MaxLength(rules) {
        PlaceFull(rules, st, child.value);
      } else if child.Some? && Accepts(rules, [], child.value) {
        Constants(rules, child.value);
        SplitFull(rules, st.(yielded := st.yielded + [[child.value]]), item, done + slice);
      }
    }
  }

  lemma {:induction false} RunFull(rules: Rules, items: seq<Item>)
    requires forall x <- items :: Terminates(rules, x)
    ensures AllFull(rules, Run(rules, items).yielded)
  {
    hide Place, Split;
    if items != [] {
      var init, last := items[..|items| - 1], items[|items| - 1];
      RunFull(rules, init);
      PlaceFull(rules, Run(rules, init), Whole(last));
      if !Run(rules, init).failed {
        SplitFull(rules, Run(rules, init), last, 0);
      }
    }
  }

  /** When the run throws, only full packages have been yielded; what was still open is lost. */
  lemma FullBeforeThrow(rules: Rules, vars: seq<Item>)
    requires forall x <- vars :: Terminates(rules, x)
    ensures CreatePackages(rules, vars).1 ==> AllFull(rules, CreatePackages(rules, vars).0)
  {
    hide Run, OrderByDescending, AllFull;
    SortedKeepsItems(vars);
    RunFull(rules, OrderByDescending(vars));
  }

  lemma {:induction false} FlatContains(packages: seq<Package>)
    ensures forall p <- Flat(packages) :: exists package <- packages :: p in package
  {
    if packages != [] {
      FlatContains(packages[1..]);
    }
  }

  /** Even when the run ends in an exception, what was yielded belongs to requested items and stays inside them. */
  lemma PiecesGenuine(rules: Rules, vars: seq<Item>)
    requires forall x <- vars :: Terminates(rules, x)
    ensures forall p <- Flat(CreatePackages(rules, vars).0) :: p.item in vars && Within(rules, p)
  {
    SortedKeepsItems(vars);
    RunGenuine(rules, OrderByDescending(vars), vars);
    var packages := CreatePackages(rules, vars).0;
    FlatContains(packages);
    forall p | p in Flat(packages) ensures p.item in vars && Within(rules, p) {
      var package :| package in packages && p in package;
      assert Requested(rules, package, vars);
    }
  }
}
