/** How many telegrams a call takes: items of equal length in plain arithmetic. */
module TelegramCounts {
  import opened Basics
  import opened Packing
  import opened Generator
  import opened Coverage
  import opened PackingOrder

  /**
   * How many items of this length one telegram takes. Short reads are bound by the request, and by the request before
   * it, which the check adds; longer ones by the answer and the one before it. Writes start at even positions; of items
   * without data a package is closed when it has no room for one with data.
   */
  function Capacity(rules: Rules, count: nat): nat {
    if rules.kind.Reading? then
      if count == 7 && rules.pdu == 60 then 1
      else if count <= 7 then Max(1, (rules.pdu - 12) / 24)
      else Max(1, ((rules.pdu - 28) / (count + 4) + 1) / 2)
    else if count == 0 then Max(1, (rules.pdu - 13) / 16)
    else Max(0, (rules.pdu - 12 + count % 2) / (16 + count + count % 2))
  }

  /** All pieces have this length. */
  predicate Equal(package: Package, count: nat) { forall p <- package :: p.Count() == count }

  // ---- sizes ----

  lemma {:induction false} EqualPayload(package: Package, count: nat)
    requires Equal(package, count)
    ensures Payload(package) + 4 * |package| == |package| * (count + 4)
  {
    if package != [] {
      var front, last := package[..|package| - 1], package[|package| - 1];
      assert last in package;
      EqualPayload(front, count);
      OneMoreTime(|front|, count + 4);
    }
  }

  lemma OneMoreTime(n: nat, d: nat)
    ensures (n + 1) * d == n * d + d
  {}

  lemma {:induction false} EqualTotal(package: Package, count: nat)
    requires Equal(package, count)
    ensures Even(WriteTotal(package)) == 12 + |package| * (16 + count + count % 2)
    ensures Even(WriteTotal(package)) % 2 == 0
  {
    hide Even;
    EvenHeaders();
    if package != [] {
      var front, last := package[..|package| - 1], package[|package| - 1];
      assert last in package;
      EqualTotal(front, count);
      EvenStep(Even(WriteTotal(front)), count);
      OneMoreTime(|front|, 16 + count + count % 2);
    }
  }

  lemma EvenHeaders()
    ensures Even(WRITE_HEADERS) == 12
  {}

  lemma EvenStep(size: nat, count: nat)
    requires size % 2 == 0
    ensures Even(size + 16 + count) == size + (16 + count + count % 2) && Even(size + 16 + count) % 2 == 0
  {}

  /** The size of a package of n reads of this length. */
  function ReadSize(n: nat, count: nat): nat {
    if n == 0 then 0 else Max(12 + 12 * n, 14 + n * (count + 4))
  }

  lemma EqualReads(rules: Rules, package: Package, p: Piece, count: nat)
    requires rules.kind.Reading? && Equal(package, count) && p.Count() == count
    ensures Accepts(rules, package, p) <==> ReadSize(|package|, count) + ReadSize(|package| + 1, count) <= rules.pdu
    ensures Full(rules, package) <==> rules.pdu - ReadSize(|package|, count) < 12
  {
    EqualPayload(package, count);
    EqualPayload(package + [p], count);
  }

  lemma EqualWrites(rules: Rules, package: Package, p: Piece, count: nat)
    requires rules.kind.Writing? && Equal(package, count) && p.Count() == count
    ensures var size := 12 + |package| * (16 + count + count % 2);
            && (Accepts(rules, package, p) <==> size + 16 + count <= rules.pdu)
            && (Full(rules, package) <==> rules.pdu - size < 17)
  {
    EqualTotal(package, count);
  }

  // ---- the capacity ----

  lemma Quotient(a: int, d: nat, q: int)
    requires d > 0
    ensures q * d <= a <==> q <= a / d
  {
    var r := a / d;
    assert a == r * d + a % d;
    if q <= r {
      Grows(q, r, d);
    } else {
      Grows(r + 1, q, d);
    }
  }

  lemma Grows(x: int, y: int, d: nat)
    requires x <= y
    ensures x * d <= y * d
  {}

  /** The check lets in the (n + 1)-st read exactly when the capacity does. */
  lemma ReadCapacity(rules: Rules, n: nat, count: nat)
    requires rules.kind.Reading? && rules.pdu >= 24 && count <= rules.pdu - 18
    ensures ReadSize(n, count) + ReadSize(n + 1, count) <= rules.pdu <==> n < Capacity(rules, count)
    ensures n < Capacity(rules, count) && n > 0 ==> rules.pdu - ReadSize(n, count) >= 12
  {
    if count >= 8 {
      ReadsByAnswer(rules, n, count);
    } else {
      ReadsByRequest(rules, n, count);
    }
  }

  lemma ReadsByRequest(rules: Rules, n: nat, count: nat)
    requires rules.kind.Reading? && rules.pdu >= 24 && count <= rules.pdu - 18 && count < 8
    ensures ReadSize(n, count) + ReadSize(n + 1, count) <= rules.pdu <==> n < Capacity(rules, count)
    ensures n < Capacity(rules, count) && n > 0 ==> rules.pdu - ReadSize(n, count) >= 12
  {
    ShortAnswers(n, count);
    ShortAnswers(n + 1, count);
  }

  lemma ShortAnswers(n: nat, count: nat)
    requires count < 8
    ensures ReadSize(n, count) == if n == 0 then 0 else if n == 1 && count == 7 then 25 else 12 + 12 * n
  {
    if n > 0 {
      Grows(count + 4, 11, n);
      assert n * (count + 4) == (count + 4) * n;
      if count < 7 {
        Grows(count + 4, 10, n);
      }
    }
  }

  lemma ReadsByAnswer(rules: Rules, n: nat, count: nat)
    requires rules.kind.Reading? && rules.pdu >= 24 && count <= rules.pdu - 18 && count >= 8
    ensures ReadSize(n, count) + ReadSize(n + 1, count) <= rules.pdu <==> n < Capacity(rules, count)
    ensures n < Capacity(rules, count) && n > 0 ==> rules.pdu - ReadSize(n, count) >= 12
  {
    var d := count + 4;
    LongAnswers(n, count);
    LongAnswers(n + 1, count);
    OneMoreTime(n, d);
    assert (2 * n + 1) * d == n * d + n * d + d;
    Quotient(rules.pdu - 28, d, 2 * n + 1);
  }

  lemma LongAnswers(n: nat, count: nat)
    requires count >= 8
    ensures ReadSize(n, count) == if n == 0 then 0 else 14 + n * (count + 4)
  {
    if n > 0 {
      Grows(12, count + 4, n);
      assert n * (count + 4) == (count + 4) * n;
    }
  }

  lemma WriteCapacity(rules: Rules, n: nat, count: nat)
    requires rules.kind.Writing? && rules.pdu >= 28 && count <= rules.pdu - 28
    ensures var size := 12 + n * (16 + count + count % 2);
            && (n < Capacity(rules, count) ==> size + 16 + count <= rules.pdu && (n > 0 ==> rules.pdu - size >= 17))
            && (n >= Capacity(rules, count) ==> size + 16 + count > rules.pdu || rules.pdu - size < 17)
    ensures Capacity(rules, count) >= 1
  {
    var d := 16 + count + count % 2;
    OneMoreTime(n, d);
    Quotient(rules.pdu - 12 + count % 2, d, n + 1);
    Quotient(rules.pdu - 12 + count % 2, d, 1);
  }

  /** A package takes one more item of the same length as long as it holds fewer than its capacity. */
  lemma CapacityDecides(rules: Rules, package: Package, p: Piece, count: nat)
    requires RoomForOne(rules) && count <= MaxLength(rules) && Equal(package, count) && p.Count() == count
    ensures Capacity(rules, count) >= 1
    ensures |package| < Capacity(rules, count) ==> Accepts(rules, package, p) && (package != [] ==> !Full(rules, package))
    ensures |package| >= Capacity(rules, count) ==> !Accepts(rules, package, p) || Full(rules, package)
  {
    hide Accepts, Full, Capacity, ReadSize;
    if rules.kind.Reading? {
      EqualReads(rules, package, p, count);
      ReadCapacity(rules, |package|, count);
      SomeCapacity(rules, count);
    } else {
      EqualWrites(rules, package, p, count);
      WriteCapacity(rules, |package|, count);
    }
  }

  lemma SomeCapacity(rules: Rules, count: nat)
    requires RoomForOne(rules) && count <= MaxLength(rules)
    ensures Capacity(rules, count) >= 1
  {
    if rules.kind.Writing? {
      WriteCapacity(rules, 0, count);
    }
  }

  lemma SameFull(rules: Rules, a: Package, b: Package, p: Piece, count: nat)
    requires Equal(a, count) && Equal(b, count) && |a| == |b| && p.Count() == count
    ensures Full(rules, a) == Full(rules, b)
  {
    if rules.kind.Reading? {
      EqualReads(rules, a, p, count);
      EqualReads(rules, b, p, count);
    } else {
      EqualWrites(rules, a, p, count);
      EqualWrites(rules, b, p, count);
    }
  }

  // ---- the telegrams ----

  /** The sequence in pieces of length m; only the last one may be shorter. */
  function Chunks<T>(s: seq<T>, m: nat): (r: seq<seq<T>>)
    requires m > 0
    ensures s == [] <==> r == []
    decreases |s|
  {
    if s == [] then [] else if |s| <= m then [s] else [s[..m]] + Chunks(s[m..], m)
  }

  lemma {:induction false} ChunkNumber<T>(s: seq<T>, m: nat)
    requires m > 0
    ensures |Chunks(s, m)| == (|s| + m - 1) / m
    ensures forall c <- Chunks(s, m) :: 0 < |c| <= m
    ensures forall i | 0 <= i < |Chunks(s, m)| - 1 :: |Chunks(s, m)[i]| == m
    decreases |s|
  {
    if s == [] {
      SmallQuotient(m - 1, m);
    } else if |s| <= m {
      SmallQuotient(|s| - 1, m);
    } else {
      ChunkNumber(s[m..], m);
      SmallQuotient(|s| - 1, m);
      assert |s| + m - 1 == |s[m..]| + m - 1 + m;
      OneMoreQuotient(|s[m..]| + m - 1, m);
    }
  }

  lemma SmallQuotient(n: nat, m: nat)
    requires m > 0
    ensures n < m ==> n / m == 0 && (n + m) / m == 1
  {
    if n < m {
      Quotient(n, m, 0);
      Quotient(n, m, 1);
      Quotient(n + m, m, 1);
      Quotient(n + m, m, 2);
    }
  }

  lemma OneMoreQuotient(n: nat, m: nat)
    requires m > 0
    ensures (n + m) / m == n / m + 1
  {
    var q := n / m;
    assert n == q * m + n % m;
    Quotient(n + m, m, q + 1);
    Quotient(n + m, m, q + 2);
    OneMoreTime(q, m);
    OneMoreTime(q + 1, m);
  }

  /** One more element goes into the last chunk, or starts a new one when that is complete. */
  lemma {:induction false} ChunkGrows<T>(s: seq<T>, m: nat, x: T)
    requires m > 0
    ensures var chunks := Chunks(s, m);
            Chunks(s + [x], m) ==
            if s == [] || |chunks[|chunks| - 1]| == m then chunks + [[x]]
            else chunks[..|chunks| - 1] + [chunks[|chunks| - 1] + [x]]
    decreases |s|
  {
    if s == [] {
      assert s + [x] == [x];
    } else if |s| < m {
    } else if |s| == m {
      assert (s + [x])[..m] == s && (s + [x])[m..] == [x];
    } else {
      ChunkGrows(s[m..], m, x);
      assert (s + [x])[..m] == s[..m] && (s + [x])[m..] == s[m..] + [x];
      var rest := Chunks(s[m..], m);
      assert rest != [] && Chunks(s, m) == [s[..m]] + rest;
    }
  }

  /** Open packages have room for what fills them; all but the last one are complete. */
  ghost predicate OpenOk(rules: Rules, open: seq<Package>, count: nat, m: nat) {
    && (forall package <- open :: Equal(package, count) && !Full(rules, package) && |package| <= m)
    && (forall i | 0 <= i < |open| - 1 :: |open[i]| == m)
  }

  /** The packages so far are the chunks of the pieces so far. */
  ghost predicate Chunked(rules: Rules, st: State, pieces: seq<Piece>, count: nat, m: nat)
    requires m > 0
  {
    && !st.failed && st.yielded + st.open == Chunks(pieces, m) && OpenOk(rules, st.open, count, m)
    && (st.yielded != [] ==> |st.yielded[|st.yielded| - 1]| == m)
  }

  lemma PlaceChunked(rules: Rules, st: State, pieces: seq<Piece>, count: nat, p: Piece)
    requires RoomForOne(rules) && count <= MaxLength(rules) && p.Count() == count && Capacity(rules, count) > 0
    requires Chunked(rules, st, pieces, count, Capacity(rules, count))
    ensures Chunked(rules, Place(rules, st, p), pieces + [p], count, Capacity(rules, count))
  {
    hide Accepts, Full, Capacity, MaxLength, Chunks, Equal, Place;
    ChunkGrows(pieces, Capacity(rules, count), p);
    if st.open != [] && |st.open[|st.open| - 1]| < Capacity(rules, count) {
      JoinsLast(rules, st, count, p);
    } else {
      StartsNew(rules, st, count, p);
    }
  }

  lemma EqualAppends(package: Package, p: Piece, count: nat)
    requires Equal(package, count) && p.Count() == count
    ensures Equal(package + [p], count) && Equal([p], count) && Equal([], count)
  {}

  /** A complete package that is not full does not accept another item. */
  lemma FirstFitLast(rules: Rules, open: seq<Package>, count: nat, p: Piece, k: nat)
    requires RoomForOne(rules) && count <= MaxLength(rules) && p.Count() == count && k <= |open|
    requires OpenOk(rules, open, count, Capacity(rules, count))
    requires forall i | 0 <= i < k :: |open[i]| >= Capacity(rules, count)
    requires k < |open| ==> |open[k]| < Capacity(rules, count)
    ensures FirstFit(rules, open, p) == k
  {
    hide Accepts, Full, Capacity, MaxLength, Equal;
    forall i | 0 <= i < |open| && i <= k ensures Accepts(rules, open[i], p) <==> i == k {
      assert open[i] in open;
      CapacityDecides(rules, open[i], p, count);
    }
    var f := FirstFit(rules, open, p);
  }

  /** What is open when one complete package is full: nothing that is complete. */
  lemma NoneComplete(rules: Rules, open: seq<Package>, count: nat, m: nat, full: Package, p: Piece)
    requires OpenOk(rules, open, count, m) && Equal(full, count) && Full(rules, full) && |full| == m && p.Count() == count
    requires open != [] ==> |open[|open| - 1]| == m
    ensures open == []
  {
    hide Full, Equal;
    if open != [] {
      assert open[0] in open && |open[0]| == m;
      SameFull(rules, open[0], full, p, count);
    }
  }

  lemma StartsNew(rules: Rules, st: State, count: nat, p: Piece)
    requires RoomForOne(rules) && count <= MaxLength(rules) && p.Count() == count && Capacity(rules, count) > 0
    requires !st.failed && OpenOk(rules, st.open, count, Capacity(rules, count))
    requires st.open != [] ==> |st.open[|st.open| - 1]| >= Capacity(rules, count)
    ensures var next := Place(rules, st, p);
            && !next.failed && next.yielded + next.open == st.yielded + st.open + [[p]]
            && OpenOk(rules, next.open, count, Capacity(rules, count))
            && (next.yielded == st.yielded || (next.yielded == st.yielded + [[p]] && Capacity(rules, count) == 1))
  {
    hide Accepts, Full, Capacity, MaxLength, Place, FirstFit, Equal;
    var m := Capacity(rules, count);
    assert st.open != [] ==> st.open[|st.open| - 1] in st.open;
    FirstFitLast(rules, st.open, count, p, |st.open|);
    NoPiece(count);
    EqualAppends([], p, count);
    CapacityDecides(rules, [], p, count);
    CapacityDecides(rules, [p], p, count);
    StartPlaces(rules, st, p);
    if Full(rules, [p]) {
      NoneComplete(rules, st.open, count, m, [p], p);
    } else {
      assert st.yielded + (st.open + [[p]]) == st.yielded + st.open + [[p]];
      OpensOne(rules, st.open, count, m, [p]);
    }
  }

  lemma NoPiece(count: nat)
    ensures Equal([], count)
  {}

  lemma OpensOne(rules: Rules, open: seq<Package>, count: nat, m: nat, package: Package)
    requires OpenOk(rules, open, count, m) && Equal(package, count) && !Full(rules, package) && |package| <= m
    requires open != [] ==> |open[|open| - 1]| == m
    ensures OpenOk(rules, open + [package], count, m)
  {
    hide Full, Equal;
  }

  lemma JoinsLast(rules: Rules, st: State, count: nat, p: Piece)
    requires RoomForOne(rules) && count <= MaxLength(rules) && p.Count() == count && Capacity(rules, count) > 0
    requires !st.failed && OpenOk(rules, st.open, count, Capacity(rules, count))
    requires st.open != [] && |st.open[|st.open| - 1]| < Capacity(rules, count)
    ensures var next, all := Place(rules, st, p), st.yielded + st.open;
            && !next.failed && next.yielded + next.open == all[..|all| - 1] + [all[|all| - 1] + [p]]
            && OpenOk(rules, next.open, count, Capacity(rules, count))
            && (next.yielded == st.yielded ||
                (next.open == [] && |next.yielded[|next.yielded| - 1]| == Capacity(rules, count)))
  {
    hide Accepts, Full, Capacity, MaxLength, Place, FirstFit, Equal, OpenOk;
    var m, k := Capacity(rules, count), |st.open| - 1;
    var grown := st.open[k] + [p];
    FrontOk(rules, st.open, count, m);
    FirstFitLast(rules, st.open, count, p, k);
    EqualAppends(st.open[k], p, count);
    CapacityDecides(rules, grown, p, count);
    PlaceLast(rules, st, p);
    JoinedAll(st.yielded, st.open, p);
    if Full(rules, grown) {
      NoneComplete(rules, st.open[..k], count, m, grown, p);
      assert st.yielded + [grown] + [] == st.yielded + ([] + [grown]);
    } else {
      OpensOne(rules, st.open[..k], count, m, grown);
    }
  }

  lemma FrontOk(rules: Rules, open: seq<Package>, count: nat, m: nat)
    requires OpenOk(rules, open, count, m) && open != []
    ensures OpenOk(rules, open[..|open| - 1], count, m)
    ensures var front := open[..|open| - 1]; front != [] ==> |front[|front| - 1]| == m
    ensures forall i | 0 <= i < |open| - 1 :: |open[i]| == m
    ensures Equal(open[|open| - 1], count)
  {
    hide Full, Equal;
    assert open[|open| - 1] in open;
    assert forall package <- open[..|open| - 1] :: package in open;
  }

  lemma JoinedAll(yielded: seq<Package>, open: seq<Package>, p: Piece)
    requires open != []
    ensures var k, all := |open| - 1, yielded + open;
            yielded + (open[..k] + [open[k] + [p]]) == all[..|all| - 1] + [all[|all| - 1] + [p]]
  {}

  lemma PlaceLast(rules: Rules, st: State, p: Piece)
    requires st.open != [] && FirstFit(rules, st.open, p) == |st.open| - 1
    ensures var k := |st.open| - 1;
            var grown := st.open[k] + [p];
            Place(rules, st, p) ==
              if Full(rules, grown) then st.(open := st.open[..k], yielded := st.yielded + [grown])
              else st.(open := st.open[..k] + [grown])
  {
    hide Accepts, Full, FirstFit;
    var k := |st.open| - 1;
    var grown := st.open[k] + [p];
    assert Without(st.open[k := grown], k) == st.open[..k];
    assert st.open[k := grown] == st.open[..k] + [grown];
  }

  lemma {:induction false} RunChunked(rules: Rules, items: seq<Item>, count: u16)
    requires RoomForOne(rules) && count <= MaxLength(rules) && forall x <- items :: x.count == count
    requires Capacity(rules, count) > 0
    ensures forall x <- items :: Terminates(rules, x)
    ensures Chunked(rules, Run(rules, items), Wholes(items), count, Capacity(rules, count))
  {
    hide Place, Capacity, Full, MaxLength;
    if items != [] {
      var init, last := items[..|items| - 1], items[|items| - 1];
      assert items == init + [last];
      RunChunked(rules, init, count);
      WholesAppend(init, last);
      PlaceChunked(rules, Run(rules, init), Wholes(init), count, Whole(last));
      assert Run(rules, items) == PlaceItem(rules, Run(rules, init), last);
    }
  }

  /**
   * Items of one length that are not cut travel in request order, as many to a telegram as its capacity says, so their
   * telegrams are as many as that number takes.
   */
  lemma EqualItems(rules: Rules, vars: seq<Item>, count: u16)
    requires RoomForOne(rules) && count <= MaxLength(rules) && forall x <- vars :: x.count == count
    ensures Capacity(rules, count) > 0 && forall x <- vars :: Terminates(rules, x)
    ensures CreatePackages(rules, vars) == (Chunks(Wholes(vars), Capacity(rules, count)), false)
    ensures |CreatePackages(rules, vars).0| == (|vars| + Capacity(rules, count) - 1) / Capacity(rules, count)
  {
    hide Capacity, MaxLength, Run, Chunks;
    SomeCapacity(rules, count);
    AlreadySorted(vars);
    RunChunked(rules, vars, count);
    ChunkNumber(Wholes(vars), Capacity(rules, count));
  }

  /** Of ten one-byte reads at a PDU of 240 nine travel together, although the telegrams of all ten would fit as well. */
  lemma TenReadsExample(vars: seq<Item>)
    requires |vars| == 10 && forall x <- vars :: x.count == 1
    ensures CreatePackages(Rules(Reading, 240), vars).0 == [Wholes(vars)[..9], Wholes(vars)[9..]]
    ensures RequestTotal(Wholes(vars)) <= 240 && ResponseTotal(Wholes(vars)) <= 240
  {
    hide Chunks, CreatePackages, Payload, Capacity, Equal;
    NineTogether();
    EqualItems(Rules(Reading, 240), vars, 1);
    TwoChunks(Wholes(vars), 9);
    AllEqual(vars, 1);
    TenPayload(Wholes(vars));
  }

  lemma AllEqual(vars: seq<Item>, count: u16)
    requires forall x <- vars :: x.count == count
    ensures Equal(Wholes(vars), count) && |Wholes(vars)| == |vars|
  {}

  lemma NineTogether()
    ensures Capacity(Rules(Reading, 240), 1) == 9 && MaxLength(Rules(Reading, 240)) == 222
  {}

  lemma TwoChunks<T>(s: seq<T>, m: nat)
    requires 0 < m < |s| <= 2 * m
    ensures Chunks(s, m) == [s[..m], s[m..]]
  {}

  lemma TenPayload(package: Package)
    requires |package| == 10 && Equal(package, 1)
    ensures Payload(package) == 10
  {
    EqualPayload(package, 1);
  }
}
