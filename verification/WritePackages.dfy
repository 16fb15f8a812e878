/** The write side's package object and the iterator that builds write packages. */
module WritePackages {
  import opened Basics
  import opened Packing
  import opened Generator

  class WritePackage {
    const maxSize: u16
    var items: seq<Piece>
    var handled: bool
    var size: int

    /** The running size is the size of the items added so far. */
    ghost predicate Valid()
      reads this
    {
      size == Size(Rules(Writing, maxSize), items)
    }

    constructor (pduSize: u16)
      ensures Valid() && maxSize == pduSize && items == [] && !handled
    {
      maxSize := pduSize;
      items, handled, size := [], false, WRITE_HEADERS;
    }

    function Free(): int
      reads this
    {
      maxSize - size
    }

    predicate IsFull(): (full: bool)
      requires Valid()
      reads this
      ensures full == Full(Rules(Writing, maxSize), items)
    {
      Free() < WRITE_ITEM_HEADER + 1
    }

    method Return()
      requires Valid() && !handled
      modifies this`handled
      ensures Valid() && handled
    {
      handled := true;
    }

    method TryAdd(item: Piece) returns (added: bool)
      requires Valid() && !handled
      modifies this
      ensures Valid() && handled == old(handled)
      ensures added == Accepts(Rules(Writing, maxSize), old(items), item)
      ensures if added then items == old(items) + [item] else unchanged(this)
    {
      var itemSize := WRITE_ITEM_HEADER + item.Count();
      assert (items + [item])[..|items|] == items;
      if Free() >= itemSize {
        items := items + [item];
        size := size + itemSize;
        if size % 2 != 0 {
          size := size + 1;  // the next item starts at an even address
        }
        return true;
      }
      return false;
    }
  }

  /** The state of a running CreateWritePackages; `yielded` lists the packages handed out so far. */
  class WritePackageIterator {
    const pduSize: u16
    var result: seq<WritePackage>
    var yielded: seq<WritePackage>
    ghost var st: State  // the same state as a value

    function PduRules(): Rules { Rules(Writing, pduSize) }

    ghost function Open(): set<WritePackage>
      reads this
    {
      set p <- result
    }

    ghost function Known(): set<WritePackage>
      reads this
    {
      set p <- result + yielded
    }

    ghost predicate Shows(packages: seq<WritePackage>, values: seq<Package>, handled: bool)
      reads packages
    {
      |packages| == |values| &&
      forall i | 0 <= i < |packages| ::
        && packages[i].Valid() && packages[i].maxSize == pduSize
        && packages[i].items == values[i] && packages[i].handled == handled
    }

    /** Open packages are unhandled, yielded ones are handled, and no package is listed twice. */
    ghost predicate Valid()
      reads this, result, yielded
    {
      && Shows(result, st.open, false)
      && Shows(yielded, st.yielded, true)
      && Distinct(result) && Distinct(yielded)
      && (forall p <- result :: p !in yielded)
    }

    constructor (pduSize: u16)
      ensures Valid() && this.pduSize == pduSize && st == State([], [], false)
      ensures result == [] && yielded == []
    {
      this.pduSize := pduSize;
      result, yielded := [], [];
      st := State([], [], false);
    }

    lemma Exposed()
      requires Valid()
      ensures |result| == |st.open| && |yielded| == |st.yielded| && Distinct(yielded)
      ensures forall i | 0 <= i < |yielded| :: yielded[i].items == st.yielded[i] && yielded[i].handled
    {}

    method TryAddTo(ghost k: nat, package: WritePackage, piece: Piece) returns (added: bool)
      requires Valid() && k < |result| && result[k] == package
      modifies package, `st
      ensures Valid() && k < |old(st.open)| && added == Accepts(PduRules(), old(st.open)[k], piece)
      ensures if added then st == old(st).(open := old(st.open)[k := old(st.open)[k] + [piece]])
              else st == old(st) && unchanged(package)
    {
      hide WritePackage.Valid, Accepts;
      added := package.TryAdd(piece);
      if added {
        st := st.(open := st.open[k := st.open[k] + [piece]]);
      }
    }

    /** Adds the piece to the first package that accepts it. */
    method FirstOrDefault(piece: Piece) returns (currentPackage: WritePackage?, ghost k: nat)
      requires Valid()
      modifies Open(), `st
      ensures Valid() && k == FirstFit(PduRules(), old(st.open), piece)
      ensures |result| == |old(st.open)|
      ensures if k < |result|
              then currentPackage == result[k] && st == old(st).(open := old(st.open)[k := old(st.open)[k] + [piece]])
              else currentPackage == null && st == old(st)
    {
      hide WritePackage.Valid, Valid, Accepts;
      Exposed();
      for i := 0 to |result|
        invariant Valid() && unchanged(Open()) && st == old(st)
        invariant forall j | 0 <= j < i :: !Accepts(PduRules(), st.open[j], piece)
      {
        var added := TryAddTo(i, result[i], piece);
        if added {
          k := i;
          assert FirstFit(PduRules(), old(st.open), piece) == k;
          return result[i], k;
        }
      }
      k := |result|;
      currentPackage := null;
    }

    /** `yield return package.Return()` for a package that is not in the list. */
    method Yield(package: WritePackage)
      requires Valid() && package.Valid() && package.maxSize == pduSize && !package.handled
      requires package !in Known()
      modifies package, `yielded, `st
      ensures Valid() && st == old(st).(yielded := old(st.yielded) + [package.items])
      ensures yielded == old(yielded) + [package] && package.handled && package.items == old(package.items)
    {
      hide WritePackage.Valid;
      package.Return();
      yielded := yielded + [package];
      st := st.(yielded := st.yielded + [package.items]);
    }

    /** `result.Add(package)` */
    method Add(package: WritePackage)
      requires Valid() && package.Valid() && package.maxSize == pduSize && !package.handled
      requires package !in Known()
      modifies `result, `st
      ensures Valid() && st == old(st).(open := old(st.open) + [package.items])
      ensures result == old(result) + [package] && |old(result)| == |old(st.open)|
    {
      hide WritePackage.Valid;
      result := result + [package];
      st := st.(open := st.open + [package.items]);
    }

    /** Removes the package at its first position. */
    method Remove(package: WritePackage, ghost k: nat)
      requires k < |result| && result[k] == package && Distinct(result)
      modifies `result
      ensures result == Without(old(result), k)
    {
      var i := 0;
      while result[i] != package
        invariant 0 <= i <= k && result == old(result)
        decreases k - i
      {
        i := i + 1;
      }
      result := result[..i] + result[i + 1..];
    }

    /** Yields an open package and, as it is handled then, removes it from the list. */
    method YieldOpen(currentPackage: WritePackage, ghost k: nat)
      requires Valid() && k < |result| && result[k] == currentPackage && k < |st.open|
      modifies currentPackage, `result, `yielded, `st
      ensures Valid() && st == old(st).(yielded := old(st.yielded) + [old(st.open)[k]], open := Without(old(st.open), k))
      ensures Known() <= old(Known()) && Open() <= old(Open())
      ensures |result| == |st.open| == |old(result)| - 1
    {
      hide WritePackage.Valid, Distinct;
      RemovalKeepsDistinct(result, k);
      AdditionKeepsDistinct(yielded, currentPackage);
      currentPackage.Return();
      yielded := yielded + [currentPackage];
      Remove(currentPackage, k);
      st := st.(yielded := st.yielded + [st.open[k]], open := Without(st.open, k));
      assert forall i | 0 <= i < |result| :: result[i] == old(result)[if i < k then i else i + 1] != currentPackage;
      assert Shows(result, st.open, false);
      assert Shows(yielded, st.yielded, true);
    }

    /** Yields the current package when it is full. */
    method Close(currentPackage: WritePackage, ghost k: nat)
      requires Valid() && k < |result| && result[k] == currentPackage && k < |st.open|
      modifies Open(), `result, `yielded, `st
      ensures Valid() && st == Settle(PduRules(), old(st), k) && st.failed == old(st).failed
      ensures Known() <= old(Known()) && Open() <= old(Open())
    {
      hide WritePackage.Valid, Full;
      if currentPackage.IsFull() {
        YieldOpen(currentPackage, k);
      }
    }

    /** Puts a slice into a new package, which is yielded at once when that fills it and opened otherwise. */
    method StartPackage(child: Piece) returns (added: bool, currentPackage: WritePackage?, ghost k: nat)
      requires Valid()
      modifies `result, `yielded, `st
      ensures Valid() && added == Accepts(PduRules(), [], child) && k == |old(st.open)|
      ensures !added ==> st == old(st)
      ensures added && Full(PduRules(), [child]) ==>
                currentPackage == null && st == old(st).(yielded := old(st.yielded) + [[child]])
      ensures added && !Full(PduRules(), [child]) ==>
                currentPackage != null && st == old(st).(open := old(st.open) + [[child]]) &&
                k < |result| && result[k] == currentPackage
      ensures forall p <- Known() :: p in old(Known()) || fresh(p)
      ensures forall p <- Open() :: p in old(Open()) || fresh(p)
    {
      hide Valid, Accepts, Size;
      k := |st.open|;
      currentPackage := new WritePackage(pduSize);
      added := currentPackage.TryAdd(child);
      if added {
        assert [] + [child] == [child];
        if currentPackage.IsFull() {
          Yield(currentPackage);
          if currentPackage.handled {
            currentPackage := null;
          }
        } else {
          Add(currentPackage);
        }
      }
    }

    /** Cuts an item that is too long; `failed` reports the exception of a child that fits no empty package. */
    method SplitItem(item: Item) returns (failed: bool)
      requires Valid() && !st.failed && item.count > MaxLength(PduRules())
      requires item.Writable() && Terminates(PduRules(), item)
      modifies this, Open()
      ensures Split(PduRules(), old(st), item, 0) == st.(failed := failed) && !st.failed
      ensures Valid()
      ensures forall p <- Known() :: p in old(Known()) || fresh(p)
      ensures forall p <- Open() :: p in old(Open()) || fresh(p)
    {
      hide WritePackage.Valid, Valid, Accepts, Full, Settle, FirstFit, Size, Split;
      ghost var target := Split(PduRules(), st, item, 0);
      var writeItemMaxLength := MaxLength(PduRules());
      var bytesToWrite: u16, processed: u16 := item.count, 0;
      var currentPackage: WritePackage? := null;
      ghost var k: nat := 0;
      while bytesToWrite > 0
        invariant Valid() && !st.failed
        invariant processed + bytesToWrite == item.count
        invariant currentPackage == null ==> target == Split(PduRules(), st, item, processed)
        invariant currentPackage != null ==> k < |st.open| && k < |result| && result[k] == currentPackage
        invariant currentPackage != null ==> bytesToWrite == 0
        invariant currentPackage != null ==> target == Settle(PduRules(), st, k)
        invariant forall p <- Known() :: p in old(Known()) || fresh(p)
        invariant forall p <- Open() :: p in old(Open()) || fresh(p)
      {
        var slice: u16 := Min(writeItemMaxLength, bytesToWrite);
        var start := (item.offset + processed) % 0x1_0000;
        item.DataPerUnit();
        SplitCases(PduRules(), st, item, processed);
        if start < item.offset || start - item.offset + slice > |item.data| {
          return true;  // slicing the data of the child throws
        }
        var child := Part(item, start, slice);
        assert Child(PduRules(), item, processed, slice) == Some(child);
        Constants(PduRules(), child);
        if slice < writeItemMaxLength {
          currentPackage, k := FirstOrDefault(child);
        }
        if currentPackage == null {
          ghost var before := st;
          var added;
          added, currentPackage, k := StartPackage(child);
          if !added {
            return true;
          }
          if slice < writeItemMaxLength {
            StartPlaces(PduRules(), before, child);
          }
        }
        SplitEnds(PduRules(), st, item);
        processed := processed + slice;
        bytesToWrite := bytesToWrite - slice;
      }
      SplitEnds(PduRules(), st, item);
      if currentPackage != null {
        Close(currentPackage, k);
      }
      failed := false;
    }

    method PlaceItem(item: Item) returns (failed: bool)
      requires Valid() && !st.failed
      requires item.Writable() && Terminates(PduRules(), item)
      modifies this, Open()
      ensures Generator.PlaceItem(PduRules(), old(st), item) == st.(failed := failed) && !st.failed
      ensures Valid()
      ensures forall p <- Known() :: p in old(Known()) || fresh(p)
      ensures forall p <- Open() :: p in old(Open()) || fresh(p)
    {
      hide WritePackage.Valid, Valid, Split, Accepts, Full;
      ghost var before := st;
      var currentPackage, k := FirstOrDefault(Whole(item));
      if currentPackage != null {
        if item.count > MaxLength(PduRules()) {
          TooLong(PduRules(), before.open[k], Whole(item));
        }
        Close(currentPackage, k);
        return false;
      }
      if item.count > MaxLength(PduRules()) {
        failed := SplitItem(item);
      } else {
        failed := AddWhole(item);
      }
    }

    /** Puts a whole item into a new open package. */
    method AddWhole(item: Item) returns (failed: bool)
      requires Valid() && !st.failed
      requires FirstFit(PduRules(), st.open, Whole(item)) == |st.open|
      modifies this, Open()
      ensures Place(PduRules(), old(st), Whole(item)) == st.(failed := failed) && !st.failed
      ensures Valid()
      ensures forall p <- Known() :: p in old(Known()) || fresh(p)
      ensures forall p <- Open() :: p in old(Open()) || fresh(p)
    {
      hide WritePackage.Valid, Valid, Accepts, Full;
      var currentPackage := new WritePackage(pduSize);
      var added := currentPackage.TryAdd(Whole(item));
      if !added {
        return true;
      }
      ghost var k := |st.open|;
      assert [] + [Whole(item)] == [Whole(item)];
      Add(currentPackage);
      Close(currentPackage, k);
      failed := false;
    }
  }

  /** All packages in the order in which they are yielded; `failed` when the run ended in an exception. */
  method CreateWritePackages(pduSize: u16, vars: seq<Item>) returns (packages: seq<WritePackage>, failed: bool)
    requires forall x <- vars :: x.Writable() && Terminates(Rules(Writing, pduSize), x)
    ensures var (expected, fails) := CreatePackages(Rules(Writing, pduSize), vars);
            && failed == fails && |packages| == |expected|
            && forall i | 0 <= i < |packages| :: packages[i].items == expected[i] && packages[i].handled
    ensures Distinct(packages) && forall p <- packages :: fresh(p)
  {
    hide WritePackage.Valid, WritePackageIterator.Valid, Run, Generator.PlaceItem, OrderByDescending;
    var rules := Rules(Writing, pduSize);
    SortedKeepsItems(vars);
    var sorted := OrderByDescending(vars);
    var it := new WritePackageIterator(pduSize);
    RunStarts(rules, sorted);
    for i := 0 to |sorted|
      invariant fresh(it) && it.pduSize == pduSize && forall p <- it.Known() :: fresh(p)
      invariant it.Valid() && !it.st.failed && it.st == Run(rules, sorted[..i])
      invariant it.Open() <= it.Known()
    {
      RunStep(rules, sorted, i);
      RunStops(rules, sorted, i + 1);
      var stopped := it.PlaceItem(sorted[i]);
      if stopped {
        it.Exposed();
        assert forall p <- it.yielded :: p in it.Known();
        return it.yielded, true;
      }
    }
    assert sorted[..|sorted|] == sorted;
    it.Exposed();
    while it.result != []
      invariant fresh(it) && forall p <- it.Known() :: fresh(p)
      invariant it.Valid()
      invariant it.st.yielded + it.st.open == CreatePackages(rules, vars).0
      invariant it.Open() <= it.Known() && |it.result| == |it.st.open|
      decreases |it.result|
    {
      it.Exposed();
      assert it.result[0] in it.Known();
      it.YieldOpen(it.result[0], 0);
    }
    it.Exposed();
    packages, failed := it.yielded, false;
    assert forall p <- packages :: p in it.Known();
  }
}
