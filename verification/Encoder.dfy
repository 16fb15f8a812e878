/** The write telegram as it is laid out in memory, and which packages it can hold. */
module Encoder {
  import opened Basics
  import opened Plc
  import opened Packing
  import opened Generator
  import opened Coverage
  import opened Telegrams
  import opened WriteCodes

  predicate AllHaveData(package: Package) {
    forall p <- package :: p.HasData()
  }

  /** Lengths of the data that the items bring along; the datagram's memory is sized by them. */
  function CarriedSizes(package: Package): seq<nat>
    requires AllHaveData(package)
  {
    seq(|package|, i requires 0 <= i < |package| => |package[i].WriteRequest().data|)
  }

  function TelegramLength(package: Package): nat
    requires AllHaveData(package)
  {
    WRITE_HEADERS + WRITE_ITEM_HEADER * |package| + PaddedSum(CarriedSizes(package))
  }

  /** Where the data of the first item starts, behind the header and all addresses. */
  function DataStart(package: Package): nat { WRITE_HEADERS + READ_ITEM_SIZE * |package| }

  /**
   * The data of item k is copied to position `at`, into a slice as long as the item announces. Past the end of the
   * telegram the encoder works on twelve bytes of its own.
   */
  predicate Encodes(package: Package, k: nat, at: nat)
    requires AllHaveData(package) && k <= |package|
    decreases |package| - k
  {
    k == |package| ||
    var total := TelegramLength(package);
    && (if at == total then DataBytes(package[k]) + 4 <= 12 else at + 4 + DataBytes(package[k]) <= total)
    && CarriedSizes(package)[k] <= DataBytes(package[k])
    && Encodes(package, k + 1, Even(at + 4 + DataBytes(package[k])))
  }

  /** An item whose data would start where the telegram ends is copied into the twelve bytes when it fits there. */
  lemma BehindTheEnd(package: Package)
    requires AllHaveData(package) && package != []
    ensures var last := |package| - 1;
            Encodes(package, last, TelegramLength(package)) <==>
            CarriedSizes(package)[last] <= DataBytes(package[last]) <= 8
  {
    hide TelegramLength, CarriedSizes, DataBytes;
    assert Encodes(package, |package|, Even(TelegramLength(package) + 4 + DataBytes(package[|package| - 1])));
  }

  lemma {:induction false} PaddedPrefix(sizes: seq<nat>, k: nat)
    requires k < |sizes|
    ensures Even(PaddedSum(sizes[..k])) + sizes[k] <= PaddedSum(sizes)
    ensures PaddedSum(sizes[..k + 1]) == Even(PaddedSum(sizes[..k])) + sizes[k]
  {
    var n := |sizes| - 1;
    assert sizes[..k + 1][..k] == sizes[..k];
    if k < n {
      PaddedPrefix(sizes[..n], k);
      assert sizes[..n][..k] == sizes[..k];
    } else {
      assert sizes[..n + 1] == sizes;
    }
  }

  /** Items that bring what they announce are encoded without an exception. */
  lemma {:induction false} ExactEncodes(package: Package, k: nat)
    requires AllHaveData(package) && k <= |package| && CarriedSizes(package) == DataSizes(package)
    ensures Encodes(package, k, DataStart(package) + 4 * k + Even(PaddedSum(CarriedSizes(package)[..k])))
    decreases |package| - k
  {
    hide PaddedSum, DataBytes, Piece.HasData, Piece.WriteRequest;
    if k < |package| {
      var sizes := CarriedSizes(package);
      PaddedPrefix(sizes, k);
      assert DataSizes(package)[k] == sizes[k];
      Layout(|package|, k, PaddedSum(sizes[..k]), sizes[k]);
      ExactEncodes(package, k + 1);
    }
  }

  /** The data of item k ends before the telegram does, and the next one starts where the padded sum says. */
  lemma Layout(n: nat, k: nat, before: nat, size: nat)
    requires k < n
    ensures var at := WRITE_HEADERS + READ_ITEM_SIZE * n + 4 * k + Even(before);
            && at + 4 + size <= WRITE_HEADERS + WRITE_ITEM_HEADER * n + Even(before) + size
            && Even(at + 4 + size) == WRITE_HEADERS + READ_ITEM_SIZE * n + 4 * (k + 1) + Even(Even(before) + size)
  {
    hide Even;
    EvenShift(6 + 6 * n + 2 * (k + 1), Even(before) + size);
  }

  /** A single item that announces more than it brings makes the encoder throw. */
  lemma ShortThrows(p: Piece)
    requires p.HasData() && |p.WriteRequest().data| < DataBytes(p)
    ensures !Encodes([p], 0, DataStart([p]))
  {
    var sizes := CarriedSizes([p]);
    assert |sizes| == 1 && sizes[..0] == [] && PaddedSum(sizes[..0]) == 0;
    assert PaddedSum(sizes) == |p.WriteRequest().data|;
    assert |[p]| == 1 && [p][0] == p && TelegramLength([p]) == 28 + PaddedSum(sizes);
  }

  // ---- the first package that cannot be encoded ----

  /** The first slice of an item that is cut. */
  function First(rules: Rules, x: Item): Piece { Part(x, x.offset, MaxLength(rules)) }

  predicate HasFirst(rules: Rules, yielded: seq<Package>, package: Package) {
    forall p <- package :: p.Part? ==> [First(rules, p.item)] in yielded
  }

  /** The first slice of an item is yielded in a package of its own, before all its other slices. */
  predicate FirstComesFirst(rules: Rules, yielded: seq<Package>) {
    forall k | 0 <= k < |yielded| :: HasFirst(rules, yielded[..k + 1], yielded[k])
  }

  predicate Ahead(rules: Rules, st: State) {
    FirstComesFirst(rules, st.yielded) && forall package <- st.open :: HasFirst(rules, st.yielded, package)
  }

  lemma YieldAhead(rules: Rules, yielded: seq<Package>, package: Package)
    requires FirstComesFirst(rules, yielded) && HasFirst(rules, yielded + [package], package)
    ensures FirstComesFirst(rules, yielded + [package])
    ensures forall other | HasFirst(rules, yielded, other) :: HasFirst(rules, yielded + [package], other)
  {
    var more := yielded + [package];
    forall k | 0 <= k < |more| ensures HasFirst(rules, more[..k + 1], more[k]) {
      assert more[..k + 1] == if k < |yielded| then yielded[..k + 1] else more;
    }
  }

  lemma SettleAhead(rules: Rules, st: State, k: nat)
    requires k < |st.open| && Ahead(rules, st)
    ensures Ahead(rules, Settle(rules, st, k))
  {
    hide Full, HasFirst, FirstComesFirst;
    MoreFirst(rules, st.yielded, [st.open[k]], st.open[k]);
    YieldAhead(rules, st.yielded, st.open[k]);
  }

  lemma MoreFirst(rules: Rules, yielded: seq<Package>, more: seq<Package>, package: Package)
    requires HasFirst(rules, yielded, package)
    ensures HasFirst(rules, yielded + more, package)
  {}

  lemma GrownFirst(rules: Rules, yielded: seq<Package>, package: Package, piece: Piece)
    requires HasFirst(rules, yielded, package) && (piece.Part? ==> [First(rules, piece.item)] in yielded)
    ensures HasFirst(rules, yielded, package + [piece]) && HasFirst(rules, yielded, [])
  {}

  lemma PlaceAhead(rules: Rules, st: State, piece: Piece)
    requires Ahead(rules, st) && (piece.Part? ==> [First(rules, piece.item)] in st.yielded)
    ensures Ahead(rules, Place(rules, st, piece))
  {
    hide Accepts, Settle, FirstFit, HasFirst, FirstComesFirst;
    var k := FirstFit(rules, st.open, piece);
    if k < |st.open| {
      GrownFirst(rules, st.yielded, st.open[k], piece);
      SettleAhead(rules, st.(open := st.open[k := st.open[k] + [piece]]), k);
    } else {
      NoneFirst(rules, st.yielded);
      GrownFirst(rules, st.yielded, [], piece);
      assert [] + [piece] == [piece];
      SettleAhead(rules, st.(open := st.open + [[piece]]), |st.open|);
    }
  }

  lemma NoneFirst(rules: Rules, yielded: seq<Package>)
    ensures HasFirst(rules, yielded, [])
  {}

  lemma {:induction false} SplitAhead(rules: Rules, st: State, item: Item, done: nat)
    requires Ahead(rules, st) && Terminates(rules, item) && item.count > MaxLength(rules) && done <= item.count && !st.failed
    requires done == 0 || [First(rules, item)] in st.yielded
    ensures Ahead(rules, Split(rules, st, item, done))
    decreases item.count - done
  {
    hide Accepts, Place, Split, MaxLength, HasFirst, FirstComesFirst;
    if done == item.count {
      SplitEnds(rules, st, item);
    } else {
      SplitCases(rules, st, item, done);
      TurnAdvances(rules, st, item, done);
      var slice := Min(MaxLength(rules), item.count - done);
      var child := Child(rules, item, done, slice);
      if child.Some? && slice < MaxLength(rules) {
        PlaceAhead(rules, st, child.value);
      } else if child.Some? && Accepts(rules, [], child.value) {
        SliceAhead(rules, st.yielded, item, child.value);
        YieldAhead(rules, st.yielded, [child.value]);
        SplitAhead(rules, st.(yielded := st.yielded + [[child.value]]), item, done + slice);
      }
    }
  }

  lemma SliceAhead(rules: Rules, yielded: seq<Package>, item: Item, child: Piece)
    requires child.item == item && (child == First(rules, item) || [First(rules, item)] in yielded)
    ensures HasFirst(rules, yielded + [[child]], [child]) && [First(rules, item)] in yielded + [[child]]
  {
    assert [child] in yielded + [[child]];
  }

  lemma {:induction false} RunAhead(rules: Rules, items: seq<Item>)
    requires forall x <- items :: Terminates(rules, x)
    ensures Ahead(rules, Run(rules, items))
  {
    hide Ahead, Place, Split;
    if items == [] {
      NothingAhead(rules);
    } else {
      var init, last := items[..|items| - 1], items[|items| - 1];
      RunAhead(rules, init);
      if !Run(rules, init).failed {
        PlaceAhead(rules, Run(rules, init), Whole(last));
        if last.count > MaxLength(rules) {
          SplitAhead(rules, Run(rules, init), last, 0);
        }
      }
    }
  }

  lemma NothingAhead(rules: Rules)
    ensures Ahead(rules, State([], [], false))
  {}

  lemma {:induction false} CloseAhead(rules: Rules, yielded: seq<Package>, open: seq<Package>)
    requires FirstComesFirst(rules, yielded) && forall package <- open :: HasFirst(rules, yielded, package)
    ensures FirstComesFirst(rules, yielded + open)
    decreases |open|
  {
    hide HasFirst, FirstComesFirst;
    if open == [] {
      assert yielded + open == yielded;
    } else {
      MoreFirst(rules, yielded, [open[0]], open[0]);
      YieldAhead(rules, yielded, open[0]);
      CloseAhead(rules, yielded + [open[0]], open[1..]);
      assert yielded + [open[0]] + open[1..] == yielded + open;
    }
  }

  /**
   * The first package that brings less data than it announces consists of the first slice of a cut item with elements
   * of several bytes, and the encoder throws on it; the packages before it are encoded.
   */
  lemma FirstUnsendable(rules: Rules, vars: seq<Item>, k: nat)
    requires rules.kind.Writing? && forall x <- vars :: x.Writable() && Terminates(rules, x)
    requires k < |CreatePackages(rules, vars).0|
    requires forall i | 0 <= i < k :: Sendable(CreatePackages(rules, vars).0[i])
    ensures var package := CreatePackages(rules, vars).0[k];
            && AllHaveData(package)
            && (Sendable(package) <==> Encodes(package, 0, DataStart(package)))
            && (!Sendable(package) ==> exists x <- vars :: !SplitSafe(rules, x) && package == [First(rules, x)])
  {
    hide CreatePackages, Encodes, Within, FirstComesFirst;
    var packages := CreatePackages(rules, vars).0;
    var package := packages[k];
    PackageGenuine(rules, vars, package);
    GenuineHaveData(rules, vars, package);
    if Sendable(package) {
      SendableSizes(vars, package);
      assert CarriedSizes(package)[..0] == [];
      ExactEncodes(package, 0);
    } else {
      PackagesAhead(rules, vars);
      var p :| p in package && !(p.HasData() && p.WriteRequest().Writable());
      PartIsWide(rules, vars, p);
      var i := FirstBefore(rules, packages, k, p);
      FirstIsShort(rules, p.item);
      assert i == k;
      ShortThrows(First(rules, p.item));
    }
  }

  lemma PackagesAhead(rules: Rules, vars: seq<Item>)
    requires forall x <- vars :: Terminates(rules, x)
    ensures FirstComesFirst(rules, CreatePackages(rules, vars).0)
  {
    hide Run, OrderByDescending, FirstComesFirst, HasFirst;
    SortedKeepsItems(vars);
    var st := Run(rules, OrderByDescending(vars));
    RunAhead(rules, OrderByDescending(vars));
    CloseAhead(rules, st.yielded, st.open);
  }

  lemma FirstBefore(rules: Rules, packages: seq<Package>, k: nat, p: Piece) returns (i: nat)
    requires k < |packages| && FirstComesFirst(rules, packages) && p in packages[k] && p.Part?
    ensures i <= k && packages[i] == [First(rules, p.item)]
  {
    assert HasFirst(rules, packages[..k + 1], packages[k]);
    i :| 0 <= i < |packages[..k + 1]| && packages[..k + 1][i] == [First(rules, p.item)];
  }

  lemma PackageGenuine(rules: Rules, vars: seq<Item>, package: Package)
    requires forall x <- vars :: Terminates(rules, x)
    requires package in CreatePackages(rules, vars).0
    ensures forall p <- package :: p.item in vars && Within(rules, p)
  {
    PiecesGenuine(rules, vars);
    forall p | p in package ensures p.item in vars && Within(rules, p) {
      FlatHolds(CreatePackages(rules, vars).0, package, p);
    }
  }

  lemma GenuineHaveData(rules: Rules, vars: seq<Item>, package: Package)
    requires forall x <- vars :: x.Writable()
    requires forall p <- package :: p.item in vars && Within(rules, p)
    ensures AllHaveData(package)
  {
    forall p | p in package ensures p.HasData() {
      p.item.DataPerUnit();
    }
  }

  /** Data is never longer than announced, so enough data is exactly as much as announced. */
  lemma SendableSizes(vars: seq<Item>, package: Package)
    requires (forall x <- vars :: x.Writable()) && (forall p <- package :: p.item in vars) && Sendable(package)
    ensures AllHaveData(package) && CarriedSizes(package) == DataSizes(package)
  {
    forall i | 0 <= i < |package| ensures |package[i].WriteRequest().data| == DataBytes(package[i]) {
      assert package[i] in package;
      NoMoreData(package[i]);
    }
  }

  lemma NoMoreData(p: Piece)
    requires p.item.Writable() && p.HasData() && p.WriteRequest().Writable()
    ensures |p.WriteRequest().data| == DataBytes(p)
  {
    if p.Part? && p.item.elementSize > 1 {
      Widens(p.length, p.item.elementSize);
    }
  }

  lemma PartIsWide(rules: Rules, vars: seq<Item>, p: Piece)
    requires p.item in vars && p.item.Writable() && Within(rules, p) && !(p.HasData() && p.WriteRequest().Writable())
    ensures p.Part? && p.item.elementSize > 1 && p.item.count > MaxLength(rules) > 0
  {
    if p.Whole? {
      WholeSendable(p.item);
    } else {
      ChildSendable(p.item, p);
    }
  }

  lemma FirstIsShort(rules: Rules, x: Item)
    requires x.Writable() && x.elementSize > 1 && x.count > MaxLength(rules) > 0
    ensures var first := First(rules, x);
            && first.HasData() && |first.WriteRequest().data| < DataBytes(first)
            && !Sendable([first]) && !SplitSafe(rules, x)
  {
    x.DataPerUnit();
    Widens(MaxLength(rules), x.elementSize);
    ChildSendable(x, First(rules, x));
    assert First(rules, x) in [First(rules, x)];
  }
}
