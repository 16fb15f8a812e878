/** The bytes that the telegrams of a package really have, as the datagram encoders lay them out. */
module Telegrams {
  import opened Basics
  import opened Plc
  import opened Packing
  import opened Generator
  import opened Coverage
  import opened PackingOrder

  /** Lengths of data blocks that each start at an even position; the last one is not padded. */
  function PaddedSum(sizes: seq<nat>): nat {
    if sizes == [] then 0 else Even(PaddedSum(sizes[..|sizes| - 1])) + sizes[|sizes| - 1]
  }

  /** The packages count elements, the wire carries bytes. */
  function DataBytes(piece: Piece): nat { piece.Count() * piece.item.elementSize }

  function DataSizes(package: Package): seq<nat> {
    seq(|package|, i requires 0 <= i < |package| => DataBytes(package[i]))
  }

  function RequestBytes(rules: Rules, package: Package): nat {
    if rules.kind.Reading? then READ_HEADERS + READ_ITEM_SIZE * |package|
    else WRITE_HEADERS + WRITE_ITEM_HEADER * |package| + PaddedSum(DataSizes(package))
  }

  /** The acknowledgement of a read whose answers carry data of these sizes. */
  function AckBytes(sizes: seq<nat>): nat { READ_ACK_HEADERS + READ_ITEM_ACK_HEADER * |sizes| + PaddedSum(sizes) }

  /** The telegrams of the job do not exceed the PDU, whatever the answers. */
  predicate Fits(rules: Rules, package: Package) {
    RequestBytes(rules, package) <= rules.pdu && (rules.kind.Reading? ==> AckBytes(DataSizes(package)) <= rules.pdu)
  }

  // ---- what the sizes mean ----

  lemma {:induction false} PaddedSumMonotone(a: seq<nat>, b: seq<nat>)
    requires |a| == |b| && forall i | 0 <= i < |a| :: a[i] <= b[i]
    ensures PaddedSum(a) <= PaddedSum(b)
  {
    if a != [] {
      PaddedSumMonotone(a[..|a| - 1], b[..|b| - 1]);
    }
  }

  /** No acknowledgement is longer than the one in which every read succeeds. */
  lemma AnswersAtMost(mem: Memory, package: Package, answers: seq<Answer>)
    requires |answers| == |package| && forall p <- package :: p.item.Readable() && p.ReadRequest().Readable()
    requires forall i | 0 <= i < |package| :: answers[i] == Read(mem, package[i].ReadRequest())
    ensures var sizes := seq(|answers|, i requires 0 <= i < |answers| => |answers[i].data|);
            && AckBytes(sizes) <= AckBytes(DataSizes(package))
            && ((forall answer <- answers :: answer.code == Success) && (forall p <- package :: p.item.bit ==> p.Count() == 1) ==>
                  AckBytes(sizes) == AckBytes(DataSizes(package)))
  {
    hide Read, DataBytes, Request.Readable, Piece.ReadRequest;
    var sizes: seq<nat> := seq(|answers|, i requires 0 <= i < |answers| => |answers[i].data|);
    forall i | 0 <= i < |package|
      ensures sizes[i] <= DataSizes(package)[i]
      ensures answers[i].code == Success && (package[i].item.bit ==> package[i].Count() == 1) ==> sizes[i] == DataSizes(package)[i]
    {
      assert package[i] in package && answers[i] in answers;
      AnswerSize(mem, package[i]);
    }
    PaddedSumMonotone(sizes, DataSizes(package));
    if (forall answer <- answers :: answer.code == Success) && forall p <- package :: p.item.bit ==> p.Count() == 1 {
      forall i | 0 <= i < |package| ensures sizes[i] == DataSizes(package)[i] {
        assert package[i] in package && answers[i] in answers;
      }
      assert sizes == DataSizes(package);
    }
  }

  lemma AnswerSize(mem: Memory, p: Piece)
    requires p.item.Readable() && p.ReadRequest().Readable()
    ensures var answer := Read(mem, p.ReadRequest());
            && |answer.data| <= DataBytes(p)
            && (answer.code == Success && (p.item.bit ==> p.Count() == 1) ==> |answer.data| == DataBytes(p))
  {}

  // ---- single-byte items fit ----

  predicate Narrow(package: Package) {
    forall p <- package :: p.item.elementSize == 1
  }

  /** Write packages count every byte; read packages leave out the fill bytes between the answers. */
  lemma {:induction false} NarrowTotals(package: Package)
    requires Narrow(package)
    ensures WriteTotal(package) == WRITE_HEADERS + WRITE_ITEM_HEADER * |package| + PaddedSum(DataSizes(package))
    ensures Payload(package) <= PaddedSum(DataSizes(package))
    ensures package != [] ==> PaddedSum(DataSizes(package)) <= Payload(package) + |package| - 1
  {
    hide Even, DataBytes;
    if package != [] {
      var before, last := package[..|package| - 1], package[|package| - 1];
      assert last in package;
      NarrowTotals(before);
      NarrowBytes(last);
      assert DataSizes(package)[..|before|] == DataSizes(before);
      EvenShift(6 + 8 * |before|, PaddedSum(DataSizes(before)));
      AtMostOneMore(PaddedSum(DataSizes(before)));
    }
  }

  lemma NarrowBytes(p: Piece)
    requires p.item.elementSize == 1
    ensures DataBytes(p) == p.Count()
  {}

  lemma AtMostOneMore(n: nat)
    ensures n <= Even(n) <= n + 1 && Even(0) == 0
  {}

  /**
   * Packages of single-byte items fit. What the cumulative check of the read side demands too much pays for the fill
   * bytes that it does not count.
   */
  lemma NarrowFits(rules: Rules, package: Package)
    requires Filled(rules, package) && package != [] && Narrow(package)
    ensures Fits(rules, package)
  {
    var before, last := package[..|package| - 1], package[|package| - 1];
    FilledFits(rules, package);
    NarrowTotals(package);
    if rules.kind.Reading? && before != [] {
      assert before + [last] == package && Accepts(rules, before, last);
    }
  }

  /** All telegrams of a call for single-byte items fit. */
  lemma TelegramsFit(rules: Rules, vars: seq<Item>)
    requires Distinct(vars) && forall x <- vars :: Terminates(rules, x) && Packable(rules, x) && x.elementSize == 1
    ensures forall package <- CreatePackages(rules, vars).0 :: Fits(rules, package)
  {
    var packages := CreatePackages(rules, vars).0;
    PiecesGenuine(rules, vars);
    forall package | package in packages ensures Fits(rules, package) {
      forall p | p in package ensures p.item.elementSize == 1 {
        FlatHolds(packages, package, p);
      }
      if vars != [] {
        NothingLostOrDuplicated(rules, vars, vars[0]);
      }
      NarrowFits(rules, package);
    }
  }

  lemma {:induction false} FlatHolds(packages: seq<Package>, package: Package, p: Piece)
    requires package in packages && p in package
    ensures p in Flat(packages)
  {
    if packages[0] != package {
      FlatHolds(packages[1..], package, p);
    }
  }

  // ---- wider elements ----

  /** The telegrams of a call for one item fit exactly when its bytes, not only its elements, have room. */
  lemma OneItemFits(rules: Rules, x: Item)
    requires Terminates(rules, x) && Packable(rules, x)
    requires rules.kind.Writing? ==> x.elementSize == 1 || x.count <= MaxLength(rules)
    ensures (forall package <- CreatePackages(rules, [x]).0 :: Fits(rules, package)) <==>
            x.elementSize == 1 || x.count * x.elementSize <= MaxLength(rules)
  {
    hide Fits, CreatePackages, Slices, Of;
    if x.elementSize == 1 {
      TelegramsFit(rules, [x]);
    } else if x.count <= MaxLength(rules) {
      OneWhole(rules, x);
      WholeFits(rules, x);
      assert [Whole(x)] in CreatePackages(rules, [x]).0;
    } else {
      var first := Part(x, x.offset, MaxLength(rules));
      NothingLostOrDuplicated(rules, [x], x);
      FirstSlice(x, MaxLength(rules));
      OfContains(Flat(CreatePackages(rules, [x]).0), x);
      FlatContains(CreatePackages(rules, [x]).0);
      var package :| package in CreatePackages(rules, [x]).0 && first in package;
      TooWide(rules, package, first);
      Widens(x.count, x.elementSize);
    }
  }

  lemma FirstSlice(x: Item, max: u16)
    requires 0 < max < x.count
    ensures Part(x, x.offset, max) in Slices(x, max)
  {
    assert Slices(x, max)[0] == Part(x, x.offset, max);
  }

  lemma WholeFits(rules: Rules, x: Item)
    requires RoomForOne(rules)
    ensures Fits(rules, [Whole(x)]) <==> x.count * x.elementSize <= MaxLength(rules)
    ensures PaddedSum(DataSizes([Whole(x)])) == x.count * x.elementSize
  {
    var sizes := DataSizes([Whole(x)]);
    assert |sizes| == 1 && sizes[..0] == [] && PaddedSum(sizes[..0]) == 0;
    assert sizes[0] == x.count * x.elementSize;
  }

  lemma OneWhole(rules: Rules, x: Item)
    requires Terminates(rules, x) && Packable(rules, x) && x.count <= MaxLength(rules)
    ensures CreatePackages(rules, [x]).0 == [[Whole(x)]]
  {
    hide Accepts, Full;
    var start := State([], [], false);
    Constants(rules, Whole(x));
    assert [x][..0] == [];
    assert OrderByDescending([x]) == [x] by { assert OrderByDescending([]) == []; }
    assert start.open + [[Whole(x)]] == [[Whole(x)]] && Without([[Whole(x)]], 0) == [];
    assert Place(rules, start, Whole(x)) == Settle(rules, start.(open := [[Whole(x)]]), 0);
    assert Run(rules, [x]) == Place(rules, start, Whole(x));
    assert start.yielded + [[Whole(x)]] + [] == [[Whole(x)]] && start.yielded + [[Whole(x)]] == [[Whole(x)]];
  }

  lemma TooWide(rules: Rules, package: Package, p: Piece)
    requires rules.kind.Reading? && rules.pdu >= 24 && p in package
    requires p.Count() == MaxLength(rules) && p.item.elementSize > 1
    ensures !Fits(rules, package)
  {
    var i :| 0 <= i < |package| && package[i] == p;
    SumHolds(DataSizes(package), i);
    Widens(p.Count(), p.item.elementSize);
  }

  lemma {:induction false} SumHolds(sizes: seq<nat>, i: nat)
    requires i < |sizes|
    ensures sizes[i] <= PaddedSum(sizes)
  {
    if i < |sizes| - 1 {
      SumHolds(sizes[..|sizes| - 1], i);
    }
  }

  // ---- lists ----

  lemma {:induction false} SubBytes(a: Package, b: Package)
    requires Sub(a, b)
    ensures |a| <= |b| && PaddedSum(DataSizes(a)) <= PaddedSum(DataSizes(b))
    decreases |b|
  {
    hide Even, DataBytes;
    if a != [] {
      var front := b[..|b| - 1];
      EvenGrows(PaddedSum(DataSizes(front)), PaddedSum(DataSizes(front)));
      assert DataSizes(b)[..|front|] == DataSizes(front);
      if Sub(a, front) {
        SubBytes(a, front);
      } else {
        SubBytes(a[..|a| - 1], front);
        assert DataSizes(a)[..|a| - 1] == DataSizes(a[..|a| - 1]);
        EvenGrows(PaddedSum(DataSizes(a[..|a| - 1])), PaddedSum(DataSizes(front)));
      }
    }
  }

  lemma EvenGrows(m: nat, n: nat)
    requires m <= n
    ensures Even(m) <= Even(n) && n <= Even(n)
  {}

  /** Items whose bytes together have room in one telegram are not cut. */
  lemma NoneCut(rules: Rules, items: seq<Item>, x: Item)
    requires Fits(rules, Wholes(items)) && x in items
    ensures x.count <= MaxLength(rules) && Packable(rules, x)
  {
    hide LastSlice;
    var i :| 0 <= i < |items| && items[i] == x;
    SumHolds(DataSizes(Wholes(items)), i);
    Widens(x.count, x.elementSize);
  }

  /** When the bytes of all items together have room in one telegram, every telegram of the call fits. */
  lemma ListFits(rules: Rules, vars: seq<Item>)
    requires Fits(rules, Wholes(OrderByDescending(vars))) && forall x <- vars :: Terminates(rules, x)
    ensures !CreatePackages(rules, vars).1
    ensures forall package <- CreatePackages(rules, vars).0 :: Fits(rules, package)
  {
    hide Run, OrderByDescending, Terminates, Packable, MaxLength, PaddedSum, Wholes;
    var sorted := OrderByDescending(vars);
    SortedKeepsItems(vars);
    forall x | x in sorted ensures x.count <= MaxLength(rules) && Packable(rules, x) {
      NoneCut(rules, sorted, x);
    }
    GeneratorSucceeds(rules, vars);
    RunSub(rules, sorted);
    forall package | package in CreatePackages(rules, vars).0 ensures Fits(rules, package) {
      SubBytes(package, Wholes(sorted));
    }
  }

  /** That is also necessary when one telegram takes them all. */
  lemma OneTelegramFits(rules: Rules, vars: seq<Item>)
    requires Distinct(vars) && forall x <- vars :: Terminates(rules, x) && Packable(rules, x)
    requires |CreatePackages(rules, vars).0| == 1
    ensures (forall package <- CreatePackages(rules, vars).0 :: Fits(rules, package)) <==>
            Fits(rules, Wholes(OrderByDescending(vars)))
  {
    OneTelegram(rules, vars);
    assert CreatePackages(rules, vars).0[0] in CreatePackages(rules, vars).0;
  }

  /** Two hundred elements of four bytes pass every check of a PDU of 240, and their answer has 818 bytes. */
  lemma WideReadExample()
    ensures var block := BlockId(DB, 1);
            var mem: Memory := map[block := seq(800, _ => 0)];
            var x := Item(0, block, 0, 200, 4, false, []);
            var rules := Rules(Reading, 240);
            && Packable(rules, x) && Filled(rules, [Whole(x)]) && CreatePackages(rules, [x]).0 == [[Whole(x)]]
            && Read(mem, Whole(x).ReadRequest()).code == Success
            && AckBytes([|Read(mem, Whole(x).ReadRequest()).data|]) == 818
  {
    var x := Item(0, BlockId(DB, 1), 0, 200, 4, false, []);
    OneWhole(Rules(Reading, 240), x);
    Constants(Rules(Reading, 240), Whole(x));
    assert [Whole(x)][..0] == [] && Filled(Rules(Reading, 240), []);
    assert [800][..0] == [];
    assert PaddedSum([800]) == 800;
  }

  /** Writing one hundred of them takes a telegram of 428 bytes. */
  lemma WideWriteExample()
    ensures var x := Item(0, BlockId(DB, 1), 0, 100, 4, false, seq(400, _ => 0));
            var rules := Rules(Writing, 240);
            && x.Writable() && Packable(rules, x) && CreatePackages(rules, [x]).0 == [[Whole(x)]]
            && RequestBytes(rules, [Whole(x)]) == 428
  {
    var x := Item(0, BlockId(DB, 1), 0, 100, 4, false, seq(400, _ => 0));
    OneWhole(Rules(Writing, 240), x);
    WholeFits(Rules(Writing, 240), x);
  }

  /** Each of two reads of fifty such elements fits, but they travel in one telegram, whose answer has 422 bytes. */
  lemma WideListExample()
    ensures var block := BlockId(DB, 1);
            var x, y := Item(0, block, 0, 50, 4, false, []), Item(1, block, 200, 50, 4, false, []);
            var rules := Rules(Reading, 240);
            && Fits(rules, [Whole(x)]) && Fits(rules, [Whole(y)])
            && CreatePackages(rules, [x, y]).0 == [[Whole(x), Whole(y)]]
            && AckBytes(DataSizes([Whole(x), Whole(y)])) == 422 && !Fits(rules, [Whole(x), Whole(y)])
  {
    var block := BlockId(DB, 1);
    var x, y := Item(0, block, 0, 50, 4, false, []), Item(1, block, 200, 50, 4, false, []);
    var rules, p, q := Rules(Reading, 240), Whole(x), Whole(y);
    WholeFits(rules, x);
    WholeFits(rules, y);
    assert DataSizes([p, q]) == [200, 200] && [200, 200][..1] == [200] && [200][..0] == [];
    assert PaddedSum([200]) == 200 && PaddedSum([200, 200]) == 400;
    TwoReads(rules, x, y);
  }

  lemma TwoReads(rules: Rules, x: Item, y: Item)
    requires rules == Rules(Reading, 240) && x.count == y.count == 50
    ensures CreatePackages(rules, [x, y]).0 == [[Whole(x), Whole(y)]]
  {
    hide CreatePackages;
    PairPacked(rules, x, y);
    assert Slices(x, 222) == [Whole(x)] && Slices(y, 222) == [Whole(y)];
    assert Front(x, 222) == [] && Front(y, 222) == [] && Last(x, 222) == Whole(x) && Last(y, 222) == Whole(y);
    assert Singles([] + []) + [[Whole(x), Whole(y)]] == [[Whole(x), Whole(y)]];
  }
}
