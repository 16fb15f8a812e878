/** What a packed write call leaves in memory, compared with whole writes in request order. */
module WriteMemory {
  import opened Basics
  import opened Plc
  import opened Packing
  import opened Generator
  import opened Coverage
  import opened WriteCodes

  /** First bit and end of a piece within its block. */
  function PieceStart(p: Piece): nat { if p.item.bit then p.Offset() else p.Offset() * 8 }

  function PieceEnd(p: Piece): nat { PieceStart(p) + if p.item.bit then 1 else p.Count() * p.item.elementSize * 8 }

  /** The two pieces have a bit in common. */
  predicate Share(p: Piece, q: Piece) {
    p.item.block == q.item.block && Max(PieceStart(p), PieceStart(q)) < Min(PieceEnd(p), PieceEnd(q))
  }

  lemma BothShare(p: Piece, q: Piece, a: BitAddress)
    requires p.HasData() && q.HasData()
    requires Covers(p.WriteRequest(), a) && Covers(q.WriteRequest(), a)
    ensures Share(p, q)
  {
    CoversRange(p, a);
    CoversRange(q, a);
  }

  lemma CoversRange(p: Piece, a: BitAddress)
    requires p.HasData() && Covers(p.WriteRequest(), a)
    ensures p.item.block == a.block && PieceStart(p) <= a.index * 8 + a.bit < PieceEnd(p)
  {}

  /** No two items have a bit in common. */
  ghost predicate NonOverlapping(vars: seq<Item>) {
    forall x, y | x in vars && y in vars && x != y :: !Share(Whole(x), Whole(y))
  }

  /**
   * Writing the item's slices touches memory only if writing it whole does: it is not cut, or its block is missing,
   * or it is in range, or not even its first slice is in range.
   */
  predicate Clean(mem: Memory, rules: Rules, x: Item) {
    || x.count <= MaxLength(rules)
    || x.block !in mem
    || x.offset + x.count <= |mem[x.block]|
    || x.offset + MaxLength(rules) > |mem[x.block]|
  }

  lemma OnlyOneCovers(vars: seq<Item>, x: Item, y: Item, a: BitAddress)
    requires NonOverlapping(vars) && x in vars && y in vars && x.Writable() && y.Writable()
    requires Covers(Whole(x).WriteRequest(), a) && Covers(Whole(y).WriteRequest(), a)
    ensures x == y
  {
    BothShare(Whole(x), Whole(y), a);
  }

  /** A slice covers only bits of its item and puts the item's values on them. */
  lemma SliceOf(rules: Rules, x: Item, p: Piece, a: BitAddress)
    requires x.Writable() && SplitSafe(rules, x) && p in Slices(x, MaxLength(rules))
    requires (MaxLength(rules) > 0 || x.count == 0)
    requires p.HasData() && p.WriteRequest().Writable() && Covers(p.WriteRequest(), a)
    ensures Whole(x).WriteRequest().Writable() && Covers(Whole(x).WriteRequest(), a)
    ensures Carried(p.WriteRequest(), a) == Carried(Whole(x).WriteRequest(), a)
  {
    hide Carried, Covers, Piece.HasData, Request.Writable, GetBit;
    WholeSendable(x);
    if x.count > MaxLength(rules) {
      SlicesFromTile(x, MaxLength(rules), 0);
      PartOf(x, p, a);
    }
  }

  lemma PartOf(x: Item, p: Piece, a: BitAddress)
    requires x.Writable() && !x.bit && x.elementSize == 1 && p.Part? && p.item == x
    requires x.offset <= p.start && p.start + p.length <= x.offset + x.count
    requires p.HasData() && p.WriteRequest().Writable() && Covers(p.WriteRequest(), a)
    ensures Whole(x).WriteRequest().Writable() && Covers(Whole(x).WriteRequest(), a)
    ensures Carried(p.WriteRequest(), a) == Carried(Whole(x).WriteRequest(), a)
  {
    hide GetBit;
  }

  /** Every unit of an item lies in one of its slices. */
  lemma {:induction false} SliceAt(x: Item, max: u16, done: nat, unit: nat) returns (p: Piece)
    requires max > 0 && done <= unit < x.count
    ensures p in SlicesFrom(x, max, done) && p.Part? && p.item == x
    ensures x.offset <= p.start <= x.offset + unit < p.start + p.length <= x.offset + x.count
    decreases x.count - done
  {
    var slice := Min(max, x.count - done);
    if unit < done + slice {
      p := Part(x, x.offset + done, slice);
    } else {
      p := SliceAt(x, max, done + slice, unit);
    }
  }

  /** A bit of an item that is in range is hit by one of its slices. */
  lemma SliceHits(mem: Memory, rules: Rules, x: Item, a: BitAddress) returns (p: Piece)
    requires x.Writable() && SplitSafe(rules, x) && (MaxLength(rules) > 0 || x.count == 0)
    requires Sendable(Slices(x, MaxLength(rules))) && Hits(mem, Whole(x).WriteRequest(), a)
    ensures p in Slices(x, MaxLength(rules)) && p.HasData() && Hits(mem, p.WriteRequest(), a)
  {
    if x.count <= MaxLength(rules) {
      p := Whole(x);
    } else {
      p := SliceAt(x, MaxLength(rules), 0, a.index - x.offset);
    }
  }

  /** A slice succeeds although the whole write does not, exactly when the item is not clean. */
  lemma CleanIff(mem: Memory, rules: Rules, x: Item)
    requires x.Writable() && SplitSafe(rules, x) && (MaxLength(rules) > 0 || x.count == 0)
    requires Sendable(Slices(x, MaxLength(rules)))
    ensures Clean(mem, rules, x) <==>
            forall p <- Slices(x, MaxLength(rules)) ::
              Status(mem, p.WriteRequest()) == Success ==> Status(mem, Whole(x).WriteRequest()) == Success
  {
    hide Status, Slices, Piece.WriteRequest, Sendable;
    var max := MaxLength(rules);
    var pieces := Slices(x, max);
    if x.count > max {
      SlicesAfterFirst(x, max);
      RangeStatus(mem, Whole(x));
      forall p | p in pieces
        ensures p.HasData() && (Status(mem, p.WriteRequest()) == Success <==> x.block in mem && p.start + p.length <= |mem[x.block]|)
      {
        OneSendable(pieces, p);
        RangeStatus(mem, p);
      }
      assert Part(x, x.offset, max) in pieces;
    } else {
      NotCut(x, max);
    }
  }

  lemma OneSendable(pieces: seq<Piece>, p: Piece)
    requires Sendable(pieces) && p in pieces
    ensures p.HasData() && p.WriteRequest().Writable()
  {}

  lemma NotCut(x: Item, max: u16)
    requires x.count <= max
    ensures Slices(x, max) == [Whole(x)]
  {}

  lemma RangeStatus(mem: Memory, p: Piece)
    requires p.HasData() && p.item.elementSize == 1 && !p.item.bit
    ensures Status(mem, p.WriteRequest()) == Success <==>
            p.item.block in mem && p.Offset() + p.Count() <= |mem[p.item.block]|
  {}

  /** No slice ends before the first one does. */
  lemma SlicesAfterFirst(x: Item, max: u16)
    requires 0 < max < x.count
    ensures forall p <- Slices(x, max) :: p.Part? && p.item == x && p.start + p.length >= x.offset + max
    ensures forall p <- Slices(x, max) :: p.start + p.length <= x.offset + x.count
    ensures Part(x, x.offset, max) in Slices(x, max)
  {
    SlicesFromTile(x, max, max);
    assert Slices(x, max) == [Part(x, x.offset, max)] + SlicesFrom(x, max, max);
  }

  /** Item x is in range and covers bit a. */
  predicate ItemHits(mem: Memory, x: Item, a: BitAddress) {
    Hits(mem, Whole(x).WriteRequest(), a)
  }

  /** The value item x puts on bit a. */
  function ItemValue(x: Item, a: BitAddress): bool
    requires x.Writable() && Covers(Whole(x).WriteRequest(), a)
  {
    WholeSendable(x);
    Carried(Whole(x).WriteRequest(), a)
  }

  // ---- which write decides a bit ----

  /** The last of the pieces, written in this order, that hits bit a; -1 when none does. */
  function LastHit(mem: Memory, pieces: seq<Piece>, a: BitAddress): (k: int)
    requires Sendable(pieces)
    ensures -1 <= k < |pieces|
    ensures k >= 0 ==> pieces[k].HasData() && Hits(mem, pieces[k].WriteRequest(), a)
    ensures forall l | k < l < |pieces| :: pieces[l].HasData() && !Hits(mem, pieces[l].WriteRequest(), a)
  {
    if pieces == [] then -1
    else
      FrontSendable(pieces);
      if Hits(mem, pieces[|pieces| - 1].WriteRequest(), a) then |pieces| - 1
      else LastHit(mem, pieces[..|pieces| - 1], a)
  }

  lemma FrontSendable(pieces: seq<Piece>)
    requires Sendable(pieces) && pieces != []
    ensures Sendable(pieces[..|pieces| - 1])
    ensures pieces[|pieces| - 1].HasData() && pieces[|pieces| - 1].WriteRequest().Writable()
  {
    assert pieces[|pieces| - 1] in pieces;
  }

  /** Which item decides bit a when these pieces are written. */
  function Winner(mem: Memory, pieces: seq<Piece>, a: BitAddress): Option<Item>
    requires Sendable(pieces)
  {
    var k := LastHit(mem, pieces, a);
    if k < 0 then None else Some(pieces[k].item)
  }

  lemma {:induction false} LastWriteByPiece(mem: Memory, pieces: seq<Piece>, a: BitAddress)
    requires Sendable(pieces) && Exists(mem, a)
    ensures var k := LastHit(mem, pieces, a);
            LastWrite(mem, Requests(pieces), a) ==
              if k < 0 then BitAt(mem, a) else Carried(pieces[k].WriteRequest(), a)
  {
    hide Hits, Carried, BitAt, Piece.WriteRequest, Piece.HasData, Request.Writable;
    if pieces != [] {
      FrontSendable(pieces);
      var front := pieces[..|pieces| - 1];
      assert Requests(pieces)[..|front|] == Requests(front);
      LastWriteByPiece(mem, front, a);
    }
  }

  /** What bit a holds when this item decides it. */
  function Put(mem: Memory, winner: Option<Item>, a: BitAddress): bool
    requires Exists(mem, a)
  {
    if winner.Some? && winner.value.Writable() && Covers(Whole(winner.value).WriteRequest(), a)
    then ItemValue(winner.value, a) else BitAt(mem, a)
  }

  /** Two lists of writes leave the same memory exactly when they agree on the last write to every bit. */
  lemma SameMemoryIff(mem: Memory, u: seq<Piece>, v: seq<Piece>)
    requires Sendable(u) && Sendable(v)
    ensures Execute(mem, Requests(u)) == Execute(mem, Requests(v)) <==>
            forall a: BitAddress | Exists(mem, a) :: LastWrite(mem, Requests(u), a) == LastWrite(mem, Requests(v), a)
  {
    hide Requests, LastWrite, Execute, BitAt, Sendable;
    var m, n := Execute(mem, Requests(u)), Execute(mem, Requests(v));
    ExecuteKeepsShape(mem, Requests(u));
    ExecuteKeepsShape(mem, Requests(v));
    forall a: BitAddress | Exists(mem, a)
      ensures BitAt(m, a) == LastWrite(mem, Requests(u), a) && BitAt(n, a) == LastWrite(mem, Requests(v), a)
    {
      MemoryLaw(mem, Requests(u), a);
      MemoryLaw(mem, Requests(v), a);
    }
    if forall a: BitAddress | Exists(mem, a) :: LastWrite(mem, Requests(u), a) == LastWrite(mem, Requests(v), a) {
      BitsDetermineMemory(m, n);
    }
  }

  // ---- what a piece does to a bit ----

  /** A travelling piece covers only bits of its item and puts the item's values on them. */
  lemma PieceCovers(rules: Rules, vars: seq<Item>, p: Piece, a: BitAddress)
    requires Accepted(rules, vars) && p in Pieces(rules, vars)
    requires p.HasData() && p.WriteRequest().Writable() && Covers(p.WriteRequest(), a)
    ensures p.item in vars && p.item.Writable() && Whole(p.item).WriteRequest().Writable()
    ensures Covers(Whole(p.item).WriteRequest(), a) && Carried(p.WriteRequest(), a) == ItemValue(p.item, a)
  {
    hide Slices, Carried, Covers, Request.Writable, Piece.HasData, Item.Writable;
    PiecesAreSlices(rules, vars, p);
    SliceOf(rules, p.item, p, a);
  }

  /** What the last piece that hits a bit tells about the bit. */
  lemma PackedHit(mem: Memory, rules: Rules, vars: seq<Item>, a: BitAddress)
    requires Accepted(rules, vars) && Sendable(Pieces(rules, vars)) && Exists(mem, a)
    ensures var pieces := Pieces(rules, vars);
            var k := LastHit(mem, pieces, a);
            && (k < 0 ==> LastWrite(mem, Requests(pieces), a) == BitAt(mem, a))
            && (k >= 0 ==>
                  && pieces[k].item in vars && pieces[k].item.Writable()
                  && Covers(Whole(pieces[k].item).WriteRequest(), a)
                  && LastWrite(mem, Requests(pieces), a) == ItemValue(pieces[k].item, a))
  {
    hide Pieces, LastWrite, Requests, Carried, Item.Writable;
    var pieces := Pieces(rules, vars);
    var k := LastHit(mem, pieces, a);
    LastWriteByPiece(mem, pieces, a);
    if k >= 0 {
      OneSendable(pieces, pieces[k]);
      PieceCovers(rules, vars, pieces[k], a);
    }
  }

  lemma WholeHit(mem: Memory, vars: seq<Item>, a: BitAddress)
    requires (forall x <- vars :: x.Writable()) && Sendable(Wholes(vars)) && Exists(mem, a)
    ensures var k := LastHit(mem, Wholes(vars), a);
            && (k < 0 ==> LastWrite(mem, Requests(Wholes(vars)), a) == BitAt(mem, a))
            && (k >= 0 ==> ItemHits(mem, vars[k], a) && LastWrite(mem, Requests(Wholes(vars)), a) == ItemValue(vars[k], a))
            && forall i | k < i < |vars| :: !ItemHits(mem, vars[i], a)
  {
    hide LastWrite, Requests, Carried, Item.Writable, Hits;
    LastWriteByPiece(mem, Wholes(vars), a);
    forall i | 0 <= i < |vars| ensures Wholes(vars)[i] == Whole(vars[i]) && vars[i] in vars {}
  }

  /** An item that is clean is hit by its pieces exactly where it is hit whole. */
  lemma CleanHits(mem: Memory, rules: Rules, vars: seq<Item>, a: BitAddress)
    requires Accepted(rules, vars) && (forall x <- vars :: Clean(mem, rules, x)) && Exists(mem, a)
    requires Sendable(Pieces(rules, vars)) && Sendable(Wholes(vars))
    ensures var k := LastHit(mem, Pieces(rules, vars), a);
            && (k >= 0 ==> ItemHits(mem, Pieces(rules, vars)[k].item, a))
            && (k >= 0 <==> LastHit(mem, Wholes(vars), a) >= 0)
  {
    hide Pieces, Hits, Slices, Request.Writable, Piece.HasData, Item.Writable;
    var pieces := Pieces(rules, vars);
    var k, i := LastHit(mem, pieces, a), LastHit(mem, Wholes(vars), a);
    AllSendable(rules, vars);
    WholeHit(mem, vars, a);
    if k >= 0 {
      PiecesAreSlices(rules, vars, pieces[k]);
      HitByItem(mem, rules, vars, pieces[k], a);
      var j :| 0 <= j < |vars| && vars[j] == pieces[k].item;
    } else if i >= 0 {
      var p := PieceHits(mem, rules, vars, vars[i], a);
    }
  }

  /** A piece that hits a bit belongs to an item whose whole write hits that bit. */
  lemma HitByItem(mem: Memory, rules: Rules, vars: seq<Item>, p: Piece, a: BitAddress)
    requires Accepted(rules, vars) && p in Pieces(rules, vars) && p.HasData() && Sendable(Pieces(rules, vars))
    requires Hits(mem, p.WriteRequest(), a) && Clean(mem, rules, p.item)
    ensures p.item in vars && ItemHits(mem, p.item, a)
  {
    hide Pieces, Slices, Carried, Covers, Status, Request.Writable, Piece.HasData, Item.Writable;
    OneSendable(Pieces(rules, vars), p);
    PieceCovers(rules, vars, p, a);
    PiecesAreSlices(rules, vars, p);
    AllSendable(rules, vars);
    CleanIff(mem, rules, p.item);
  }

  /** A bit that the whole write of an item hits is hit by one of its travelling pieces. */
  lemma PieceHits(mem: Memory, rules: Rules, vars: seq<Item>, x: Item, a: BitAddress) returns (p: Piece)
    requires Accepted(rules, vars) && x in vars && ItemHits(mem, x, a)
    ensures p in Pieces(rules, vars) && p.item == x && p.HasData() && Hits(mem, p.WriteRequest(), a)
  {
    hide Pieces, Slices, Hits;
    AllSendable(rules, vars);
    p := SliceHits(mem, rules, x, a);
    SlicesTile(x, MaxLength(rules));
    PiecesAreSlices(rules, vars, p);
  }

  // ---- the order of the writes ----

  /**
   * Sorting, cutting and packing leave the memory of whole writes in request order exactly when every bit gets the same
   * value from the item whose piece is the last to hit it and from the item that is the last one requested to hit it.
   */
  lemma WriteOrderIff(mem: Memory, rules: Rules, vars: seq<Item>)
    requires Accepted(rules, vars)
    requires Sendable(Pieces(rules, vars)) && Sendable(Wholes(vars))
    ensures Execute(mem, Requests(Pieces(rules, vars))) == Execute(mem, Requests(Wholes(vars))) <==>
            forall a: BitAddress | Exists(mem, a) ::
              Put(mem, Winner(mem, Pieces(rules, vars), a), a) == Put(mem, Winner(mem, Wholes(vars), a), a)
  {
    hide Pieces, Wholes, Execute, Requests, LastWrite, Sendable, Put;
    var pieces := Pieces(rules, vars);
    SameMemoryIff(mem, pieces, Wholes(vars));
    forall a: BitAddress | Exists(mem, a)
      ensures LastWrite(mem, Requests(pieces), a) == Put(mem, Winner(mem, pieces, a), a)
      ensures LastWrite(mem, Requests(Wholes(vars)), a) == Put(mem, Winner(mem, Wholes(vars), a), a)
    {
      BothWinners(mem, rules, vars, a);
    }
  }

  lemma BothWinners(mem: Memory, rules: Rules, vars: seq<Item>, a: BitAddress)
    requires Accepted(rules, vars) && Exists(mem, a)
    requires Sendable(Pieces(rules, vars)) && Sendable(Wholes(vars))
    ensures LastWrite(mem, Requests(Pieces(rules, vars)), a) == Put(mem, Winner(mem, Pieces(rules, vars), a), a)
    ensures LastWrite(mem, Requests(Wholes(vars)), a) == Put(mem, Winner(mem, Wholes(vars), a), a)
  {
    hide Pieces, LastWrite, Requests, Sendable, Hits, Item.Writable, Covers, ItemValue, BitAt;
    PackedHit(mem, rules, vars, a);
    WholeHit(mem, vars, a);
    WholesHold(vars);
    HitCovers(mem, vars, a);
  }

  lemma WholesHold(vars: seq<Item>)
    ensures |Wholes(vars)| == |vars| && forall i | 0 <= i < |vars| :: Wholes(vars)[i] == Whole(vars[i]) && vars[i] in vars
  {}

  lemma HitCovers(mem: Memory, vars: seq<Item>, a: BitAddress)
    ensures forall x: Item | ItemHits(mem, x, a) :: Covers(Whole(x).WriteRequest(), a)
  {}

  /** At every bit the item requested last also travels last. */
  ghost predicate LatestTravelsLast(mem: Memory, rules: Rules, vars: seq<Item>)
    requires (forall x <- vars :: Terminates(rules, x)) && Sendable(Pieces(rules, vars)) && Sendable(Wholes(vars))
  {
    forall a: BitAddress | Exists(mem, a) :: Winner(mem, Pieces(rules, vars), a) == Winner(mem, Wholes(vars), a)
  }

  /** Packing by size, cutting and executing leaves the memory that whole writes in request order leave. */
  lemma WriteRefines(mem: Memory, rules: Rules, vars: seq<Item>)
    requires Accepted(rules, vars) && NonOverlapping(vars) && forall x <- vars :: Clean(mem, rules, x)
    requires Sendable(Pieces(rules, vars)) && Sendable(Wholes(vars))
    ensures Execute(mem, Requests(Pieces(rules, vars))) == Execute(mem, Requests(Wholes(vars)))
  {
    hide Pieces, Execute, Requests, Sendable, Clean, NonOverlapping, Hits, Covers, Item.Writable;
    WriteOrderIff(mem, rules, vars);
    WholesHold(vars);
    forall a: BitAddress | Exists(mem, a) ensures Winner(mem, Pieces(rules, vars), a) == Winner(mem, Wholes(vars), a) {
      PackedHit(mem, rules, vars, a);
      CleanHits(mem, rules, vars, a);
      WholeHit(mem, vars, a);
      HitCovers(mem, vars, a);
      var k, i := LastHit(mem, Pieces(rules, vars), a), LastHit(mem, Wholes(vars), a);
      if k >= 0 {
        OnlyOneCovers(vars, Pieces(rules, vars)[k].item, vars[i], a);
      }
    }
  }

  predicate Before(vars: seq<Item>, x: Item, y: Item) {
    exists i, j :: 0 <= i < j < |vars| && vars[i] == x && vars[j] == y
  }

  /** Pieces with a bit in common travel in the order in which their items are requested; the data does not matter. */
  ghost predicate InOrder(rules: Rules, vars: seq<Item>)
    requires forall x <- vars :: Terminates(rules, x)
  {
    var pieces := Pieces(rules, vars);
    forall k, l | 0 <= k < l < |pieces| && pieces[k].item != pieces[l].item && Share(pieces[k], pieces[l]) ::
      Before(vars, pieces[k].item, pieces[l].item)
  }

  /** When overlapping pieces travel in request order, the memory is that of whole writes in request order. */
  lemma InOrderRefines(mem: Memory, rules: Rules, vars: seq<Item>)
    requires Accepted(rules, vars) && InOrder(rules, vars) && forall x <- vars :: Clean(mem, rules, x)
    requires Sendable(Pieces(rules, vars)) && Sendable(Wholes(vars))
    ensures LatestTravelsLast(mem, rules, vars)
    ensures Execute(mem, Requests(Pieces(rules, vars))) == Execute(mem, Requests(Wholes(vars)))
  {
    hide Pieces, Execute, Requests, Sendable, Clean, InOrder;
    WriteOrderIff(mem, rules, vars);
    forall a: BitAddress | Exists(mem, a) ensures Winner(mem, Pieces(rules, vars), a) == Winner(mem, Wholes(vars), a) {
      InOrderWins(mem, rules, vars, a);
    }
  }

  lemma InOrderWins(mem: Memory, rules: Rules, vars: seq<Item>, a: BitAddress)
    requires Accepted(rules, vars) && InOrder(rules, vars) && (forall x <- vars :: Clean(mem, rules, x)) && Exists(mem, a)
    requires Sendable(Pieces(rules, vars)) && Sendable(Wholes(vars))
    ensures Winner(mem, Pieces(rules, vars), a) == Winner(mem, Wholes(vars), a)
  {
    hide Pieces, Sendable, Clean, Covers, Status, Share, Item.Writable, Piece.HasData, Request.Writable, Piece.WriteRequest;
    var pieces := Pieces(rules, vars);
    var k, i := LastHit(mem, pieces, a), LastHit(mem, Wholes(vars), a);
    CleanHits(mem, rules, vars, a);
    WholeHit(mem, vars, a);
    WholesHold(vars);
    if k >= 0 && pieces[k].item != vars[i] {
      var q := PieceHits(mem, rules, vars, vars[i], a);
      var l :| 0 <= l < |pieces| && pieces[l] == q;
      BothShare(q, pieces[k], a);
    }
  }

  // ---- cut items that run beyond the end of their block ----

  /** A slice of an unclean item writes its bits although the whole write would not. */
  lemma UncleanWriteLeaks(mem: Memory, rules: Rules, vars: seq<Item>, x: Item, p: Piece, a: BitAddress)
    requires Accepted(rules, vars) && NonOverlapping(vars) && x in vars && !Clean(mem, rules, x) && Exists(mem, a)
    requires Sendable(Pieces(rules, vars)) && Sendable(Wholes(vars))
    requires p in Slices(x, MaxLength(rules)) && p.HasData() && Hits(mem, p.WriteRequest(), a)
    ensures x.Writable() && Covers(Whole(x).WriteRequest(), a) && Status(mem, Whole(x).WriteRequest()) == OutOfRange
    ensures LastWrite(mem, Requests(Wholes(vars)), a) == BitAt(mem, a)
    ensures LastWrite(mem, Requests(Pieces(rules, vars)), a) == ItemValue(x, a)
  {
    hide Pieces, NonOverlapping, LastWrite, Slices, Requests, Item.Writable, Covers, ItemValue, BitAt, Sendable,
         Piece.HasData, Request.Writable;
    SliceItem(rules, x, p);
    PiecesAreSlices(rules, vars, p);
    OneSendable(Pieces(rules, vars), p);
    PieceCovers(rules, vars, p, a);
    PackedHit(mem, rules, vars, a);
    WholeHit(mem, vars, a);
    HitCovers(mem, vars, a);
    UncleanStatus(mem, rules, x);
    var k, i := LastHit(mem, Pieces(rules, vars), a), LastHit(mem, Wholes(vars), a);
    OnlyOneCovers(vars, x, Pieces(rules, vars)[k].item, a);
    if i >= 0 {
      OnlyOneCovers(vars, x, vars[i], a);
    }
  }

  lemma SliceItem(rules: Rules, x: Item, p: Piece)
    requires p in Slices(x, MaxLength(rules)) && (MaxLength(rules) > 0 || x.count == 0)
    ensures p.item == x
  {
    SlicesTile(x, MaxLength(rules));
  }

  lemma UncleanStatus(mem: Memory, rules: Rules, x: Item)
    requires x.Writable() && SplitSafe(rules, x) && !Clean(mem, rules, x) && MaxLength(rules) > 0
    ensures Status(mem, Whole(x).WriteRequest()) == OutOfRange
  {}

  /**
   * For items that do not overlap, the memory is that of whole writes exactly when every slice of an unclean item that
   * is in range finds the item's own data in place already.
   */
  lemma UncleanWriteIff(mem: Memory, rules: Rules, vars: seq<Item>)
    requires Accepted(rules, vars) && NonOverlapping(vars)
    requires Sendable(Pieces(rules, vars)) && Sendable(Wholes(vars))
    ensures Execute(mem, Requests(Pieces(rules, vars))) == Execute(mem, Requests(Wholes(vars))) <==>
            forall x, p, a | x in vars && !Clean(mem, rules, x) && p in Slices(x, MaxLength(rules)) && InPlace(mem, x, p, a) ::
              BitAt(mem, a) == ItemValue(x, a)
  {
    hide Pieces, Execute, Requests, Sendable, Clean, NonOverlapping, LastWrite, Slices, ItemValue, BitAt, Hits, Covers,
         Item.Writable, Piece.HasData;
    SameMemoryIff(mem, Pieces(rules, vars), Wholes(vars));
    forall x, p, a | x in vars && !Clean(mem, rules, x) && p in Slices(x, MaxLength(rules)) && InPlace(mem, x, p, a)
      ensures LastWrite(mem, Requests(Wholes(vars)), a) == BitAt(mem, a)
      ensures LastWrite(mem, Requests(Pieces(rules, vars)), a) == ItemValue(x, a)
    {
      InPlaceHits(mem, x, p, a);
      UncleanWriteLeaks(mem, rules, vars, x, p, a);
    }
    forall a: BitAddress | Exists(mem, a) &&
      !exists x, p :: x in vars && !Clean(mem, rules, x) && p in Slices(x, MaxLength(rules)) && InPlace(mem, x, p, a)
      ensures LastWrite(mem, Requests(Pieces(rules, vars)), a) == LastWrite(mem, Requests(Wholes(vars)), a)
    {
      ElsewhereSame(mem, rules, vars, a);
    }
  }

  /** The slice p of item x is in range and covers bit a. */
  predicate InPlace(mem: Memory, x: Item, p: Piece, a: BitAddress) {
    && x.Writable() && p.HasData() && Exists(mem, a)
    && Hits(mem, p.WriteRequest(), a) && Covers(Whole(x).WriteRequest(), a)
  }

  lemma InPlaceHits(mem: Memory, x: Item, p: Piece, a: BitAddress)
    requires InPlace(mem, x, p, a)
    ensures p.HasData() && Hits(mem, p.WriteRequest(), a) && Exists(mem, a)
  {}

  /** Where no unclean item is written, packed and whole writes agree. */
  lemma ElsewhereSame(mem: Memory, rules: Rules, vars: seq<Item>, a: BitAddress)
    requires Accepted(rules, vars) && NonOverlapping(vars) && Exists(mem, a)
    requires Sendable(Pieces(rules, vars)) && Sendable(Wholes(vars))
    requires !exists x, p :: x in vars && !Clean(mem, rules, x) && p in Slices(x, MaxLength(rules)) && InPlace(mem, x, p, a)
    ensures LastWrite(mem, Requests(Pieces(rules, vars)), a) == LastWrite(mem, Requests(Wholes(vars)), a)
  {
    hide Pieces, Requests, Sendable, Clean, NonOverlapping, LastWrite, Slices, ItemValue, BitAt, Covers, Status,
         Piece.HasData, Request.Writable, Item.Writable;
    var pieces := Pieces(rules, vars);
    var k, i := LastHit(mem, pieces, a), LastHit(mem, Wholes(vars), a);
    PackedHit(mem, rules, vars, a);
    WholeHit(mem, vars, a);
    HitCovers(mem, vars, a);
    if k >= 0 {
      var x := pieces[k].item;
      PiecesAreSlices(rules, vars, pieces[k]);
      assert Clean(mem, rules, x) by { assert !Clean(mem, rules, x) ==> InPlace(mem, x, pieces[k], a); }
      HitByItem(mem, rules, vars, pieces[k], a);
      var j :| 0 <= j < |vars| && vars[j] == x;
      OnlyOneCovers(vars, x, vars[i], a);
    } else if i >= 0 {
      var p := PieceHits(mem, rules, vars, vars[i], a);
    }
  }

  /** Such a request: 230 bytes to a block of 220, in telegrams of at most 240. */
  lemma UncleanExample()
    ensures var block := BlockId(DB, 1);
            var mem: Memory := map[block := seq(220, _ => 0)];
            var x := Item(0, block, 0, 230, 1, false, seq(230, _ => 1));
            var rules := Rules(Writing, 240);
            && Sendable(Pieces(rules, [x])) && Sendable(Wholes([x]))
            && Status(mem, Whole(x).WriteRequest()) == OutOfRange
            && Execute(mem, Requests(Pieces(rules, [x]))) != mem
  {
    hide Execute, LastWrite, Pieces, Requests, Slices, GetBit, Sendable;
    var block := BlockId(DB, 1);
    var mem: Memory := map[block := seq(220, _ => 0)];
    var x := Item(0, block, 0, 230, 1, false, seq(230, _ => 1));
    var rules, a := Rules(Writing, 240), BitAddress(block, 0, 0);
    var first := Part(x, 0, 212);
    assert Accepted(rules, [x]);
    AllSendable(rules, [x]);
    SlicesAfterFirst(x, MaxLength(rules));
    UncleanWriteLeaks(mem, rules, [x], x, first, a);
    MemoryLaw(mem, Requests(Pieces(rules, [x])), a);
    FirstBit();
  }

  lemma FirstBit()
    ensures GetBit(1, 0) && !GetBit(0, 0)
  {}
}
