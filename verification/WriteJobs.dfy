/** A whole write call: the jobs of all packages and the ways in which the call can end. */
module WriteJobs {
  import opened Basics
  import opened Plc
  import opened Packing
  import opened Generator
  import opened Coverage
  import opened WritePackages
  import opened WriteCodes
  import opened WriteMemory
  import opened Telegrams
  import opened Encoder

  /** What the client gets: the codes in request order, an empty list when a telegram was not sent, or an exception. */
  datatype Outcome =
    | Done(codes: seq<ReturnCode>)
    | EmptyList
    | NotConnected
    | DuplicateItem
    | EncoderThrew
    | TimedOut
    | GeneratorFailed

  /** The job of the package is encoded, sent and answered. */
  predicate GoesThrough(package: Package, reply: Link) { Sendable(package) && reply.Answered? }

  /** The first package from i on whose job does not go through. */
  function Stop(packages: seq<Package>, link: nat -> Link, i: nat): (n: nat)
    requires i <= |packages|
    ensures i <= n <= |packages|
    ensures forall j | i <= j < n :: GoesThrough(packages[j], link(j))
    ensures n < |packages| ==> !GoesThrough(packages[n], link(n))
    decreases |packages| - i
  {
    if i == |packages| || !GoesThrough(packages[i], link(i)) then i else Stop(packages, link, i + 1)
  }

  lemma StopAt(packages: seq<Package>, link: nat -> Link, i: nat, n: nat)
    requires i <= n <= |packages| && forall j | i <= j < n :: GoesThrough(packages[j], link(j))
    requires n < |packages| ==> !GoesThrough(packages[n], link(n))
    ensures Stop(packages, link, i) == n
  {
    hide GoesThrough;
    var m := Stop(packages, link, i);
  }

  /** How many packages the PLC executes. */
  function Executed(packages: seq<Package>, link: nat -> Link): (n: nat)
    ensures n <= |packages|
    ensures forall j | 0 <= j < n :: Sendable(packages[j])
  {
    var n := Stop(packages, link, 0);
    assert forall j | 0 <= j < n :: GoesThrough(packages[j], link(j));
    if n < |packages| && Sendable(packages[n]) && link(n) == Unanswered(true) then n + 1 else n
  }

  lemma StopsAt(packages: seq<Package>, link: nat -> Link, n: nat)
    requires n <= |packages| && forall j | 0 <= j < n :: Sendable(packages[j]) && link(j).Answered?
    requires n < |packages| ==> !(Sendable(packages[n]) && link(n).Answered?)
    ensures Stop(packages, link, 0) == n
    ensures Executed(packages, link) ==
            if n < |packages| && Sendable(packages[n]) && link(n) == Unanswered(true) then n + 1 else n
  {
    hide Sendable;
    StopAt(packages, link, 0, n);
  }

  lemma {:induction false} FlatSendable(packages: seq<Package>)
    requires forall package <- packages :: Sendable(package)
    ensures Sendable(Flat(packages))
  {
    hide Piece.HasData, Request.Writable;
    FlatContains(packages);
  }

  lemma PrefixSendable(packages: seq<Package>, n: nat)
    requires n <= |packages| && forall j | 0 <= j < n :: Sendable(packages[j])
    ensures Sendable(Flat(packages[..n]))
  {
    hide Sendable;
    forall package | package in packages[..n] ensures Sendable(package) {
      var j :| 0 <= j < n && packages[..n][j] == package;
    }
    FlatSendable(packages[..n]);
  }

  // ---- the jobs ----

  /** `vars.ToDictionary(x => x, x => Success)`; None when an object occurs twice. */
  method ToDictionary(vars: seq<Item>) returns (result: Option<Codes>)
    ensures result == if Distinct(vars) then Some(map x | x in vars :: Success) else None
  {
    var entries: Codes := map[];
    for i := 0 to |vars|
      invariant Distinct(vars[..i]) && entries == map x | x in vars[..i] :: Success
    {
      if vars[i] in entries {
        return None;
      }
      entries := entries[vars[i] := Success];
    }
    assert vars[..|vars|] == vars;
    result := Some(entries);
  }

  method BildResults(result: Codes, items: seq<Piece>, writeResults: seq<ReturnCode>) returns (merged: Codes)
    ensures merged == Merge(result, items, writeResults)
  {
    merged := result;
    var next := 0;
    for i := 0 to |writeResults|
      invariant next == Min(i, |items|)
      invariant Merge(result, items, writeResults) == Merge(merged, items[next..], writeResults[i..])
    {
      if next < |items| {
        var current := items[next];
        assert items[next..][1..] == items[next + 1..] && writeResults[i..][1..] == writeResults[i + 1..];
        next := next + 1;
        if current.Part? {
          assert current.item in merged ==> merged[current.item := merged[current.item]] == merged;
          if current.item in merged && merged[current.item] == Success {
            merged := merged[current.item := writeResults[i]];
          }
        } else {
          merged := merged[current.item := writeResults[i]];
        }
      }
    }
  }

  /** The encoder's loop over the items: their data is copied behind the addresses, each from an even position on. */
  method Translates(items: seq<Piece>) returns (ok: bool)
    requires AllHaveData(items)
    ensures ok == Encodes(items, 0, DataStart(items))
  {
    var total := TelegramLength(items);
    var offset := DataStart(items);
    for k := 0 to |items|
      invariant Encodes(items, 0, DataStart(items)) == Encodes(items, k, offset)
    {
      var size := DataBytes(items[k]);
      if (if offset == total then size + 4 > 12 else offset + 4 + size > total) || CarriedSizes(items)[k] > size {
        return false;
      }
      offset := offset + 4 + size;
      if offset % 2 != 0 {
        offset := offset + 1;
      }
    }
    ok := true;
  }

  /** One job: the items travel as requests and the PLC executes them in order. */
  method AnswerPackage(plc: SimulationPlcDataProvider, items: seq<Piece>) returns (codes: seq<ReturnCode>)
    requires plc.Valid() && Sendable(items)
    modifies plc.Arrays()
    ensures plc.Valid() && plc.Contents() == Execute(old(plc.Contents()), Requests(items))
    ensures codes == Statuses(old(plc.Contents()), items)
  {
    var requests := seq(|items|, i requires 0 <= i < |items| => items[i].WriteRequest());
    assert requests == Requests(items);
    codes := plc.WriteAsync(requests);
  }

  lemma SplitJobs(a: seq<Piece>, b: seq<Piece>)
    requires Sendable(a + b)
    ensures Sendable(a) && Sendable(b) && Requests(a + b) == Requests(a) + Requests(b)
  {
    assert forall p :: p in a || p in b ==> p in a + b;
  }

  lemma SameStatuses(mem: Memory, now: Memory, pieces: seq<Piece>)
    requires Sendable(pieces) && SameShape(mem, now)
    ensures Statuses(mem, pieces) == Statuses(now, pieces)
  {
    forall i | 0 <= i < |pieces| ensures Statuses(mem, pieces)[i] == Statuses(now, pieces)[i] {
      ShapeDecides(mem, now, pieces[i].WriteRequest());
    }
  }

  lemma StatusesAppend(mem: Memory, a: seq<Piece>, b: seq<Piece>)
    requires Sendable(a) && Sendable(b) && Sendable(a + b)
    ensures Statuses(mem, a + b) == Statuses(mem, a) + Statuses(mem, b)
  {
    hide Status, Piece.HasData, Request.Writable, Piece.WriteRequest;
  }

  /** Executing one more package: memory and codes are those of all pieces so far. */
  lemma OneMore(mem: Memory, codes: Codes, packages: seq<Package>, i: nat)
    requires i < |packages| && forall j | 0 <= j <= i :: Sendable(packages[j])
    ensures Sendable(Flat(packages[..i])) && Sendable(Flat(packages[..i + 1]))
    ensures var so, next := Flat(packages[..i]), Flat(packages[..i + 1]);
            var now := Execute(mem, Requests(so));
            && Execute(mem, Requests(next)) == Execute(now, Requests(packages[i]))
            && Merge(codes, next, Statuses(mem, next)) ==
               Merge(Merge(codes, so, Statuses(mem, so)), packages[i], Statuses(now, packages[i]))
  {
    hide Sendable, Execute, Merge, SameShape, Status, Requests, Flat;
    PrefixSendable(packages, i);
    PrefixSendable(packages, i + 1);
    FlatStep(packages, i);
    var so := Flat(packages[..i]);
    SplitJobs(so, packages[i]);
    ExecuteAppends(mem, Requests(so), Requests(packages[i]));
    ExecuteKeepsShape(mem, Requests(so));
    SameStatuses(mem, Execute(mem, Requests(so)), packages[i]);
    StatusesAppend(mem, so, packages[i]);
    MergeAppends(codes, so, packages[i], Statuses(mem, so), Statuses(mem, packages[i]));
  }

  lemma FlatStep(packages: seq<Package>, i: nat)
    requires i < |packages|
    ensures Flat(packages[..i + 1]) == Flat(packages[..i]) + packages[i]
  {
    assert packages[..i + 1] == packages[..i] + [packages[i]];
    FlatAppends(packages[..i], [packages[i]]);
    assert [packages[i]][1..] == [];
  }

  lemma NothingYet(mem: Memory, codes: Codes, packages: seq<Package>)
    ensures Flat(packages[..0]) == [] && Sendable([])
    ensures Execute(mem, Requests([])) == mem && Merge(codes, [], Statuses(mem, [])) == codes
  {}

  /** One job: encode, send, let the PLC execute, and collect the codes. */
  method RunJob(plc: SimulationPlcDataProvider, reply: Link, codes: Codes, items: seq<Piece>)
    returns (next: Codes, encoderThrew: bool)
    requires plc.Valid() && AllHaveData(items) && (Sendable(items) <==> Encodes(items, 0, DataStart(items)))
    modifies plc.Arrays()
    ensures plc.Valid() && encoderThrew == !Sendable(items)
    ensures if Sendable(items) && reply != Unsent && reply != Unanswered(false)
            then plc.Contents() == Execute(old(plc.Contents()), Requests(items)) else plc.Contents() == old(plc.Contents())
    ensures next == if Sendable(items) && reply.Answered? then Merge(codes, items, Statuses(old(plc.Contents()), items)) else codes
  {
    hide Encodes, AllHaveData, Sendable, Execute, Requests, Merge, Statuses;
    next := codes;
    var encoded := Translates(items);
    encoderThrew := !encoded;
    if encoded && reply != Unsent && reply != Unanswered(false) {
      var results := AnswerPackage(plc, items);
      if reply.Answered? {
        next := BildResults(codes, items, results);
      }
    }
  }

  /** Runs the jobs of the packages one after the other until one does not go through. */
  method RunJobs(plc: SimulationPlcDataProvider, link: nat -> Link, initial: Codes, packages: seq<WritePackage>,
                 ghost rules: Rules, ghost vars: seq<Item>)
    returns (codes: Codes, stop: nat, encoderThrew: bool)
    requires plc.Valid() && rules.kind.Writing? && forall x <- vars :: x.Writable() && Terminates(rules, x)
    requires |packages| == |CreatePackages(rules, vars).0|
    requires forall i | 0 <= i < |packages| :: packages[i].items == CreatePackages(rules, vars).0[i]
    modifies plc.Arrays()
    ensures plc.Valid() && stop == Stop(CreatePackages(rules, vars).0, link, 0)
    ensures encoderThrew <==> stop < |packages| && !Sendable(CreatePackages(rules, vars).0[stop])
    ensures var expected := CreatePackages(rules, vars).0;
            var n := Executed(expected, link);
            Sendable(Flat(expected[..n])) && plc.Contents() == Execute(old(plc.Contents()), Requests(Flat(expected[..n])))
    ensures var done := Flat(CreatePackages(rules, vars).0[..stop]);
            Sendable(done) && codes == Merge(initial, done, Statuses(old(plc.Contents()), done))
  {
    hide Sendable, Requests, Statuses, Merge, Execute, Flat, CreatePackages, Stop, Executed, Encodes, Terminates,
         AllHaveData, SplitSafe, First, Item.Writable, DataStart;
    ghost var mem, expected := plc.Contents(), CreatePackages(rules, vars).0;
    codes, stop, encoderThrew := initial, 0, false;
    NothingYet(mem, codes, expected);
    while stop < |packages|
      invariant 0 <= stop <= |packages| && plc.Valid() && !encoderThrew
      invariant forall j | 0 <= j < stop :: Sendable(expected[j]) && link(j).Answered?
      invariant Sendable(Flat(expected[..stop]))
      invariant plc.Contents() == Execute(mem, Requests(Flat(expected[..stop])))
      invariant codes == Merge(initial, Flat(expected[..stop]), Statuses(mem, Flat(expected[..stop])))
    {
      FirstUnsendable(rules, vars, stop);
      if Sendable(expected[stop]) {
        OneMore(mem, initial, expected, stop);
      }
      codes, encoderThrew := RunJob(plc, link(stop), codes, packages[stop].items);
      if encoderThrew || !link(stop).Answered? {
        break;
      }
      stop := stop + 1;
    }
    StopsAt(expected, link, stop);
  }

  // ---- the call ----

  /** When every job goes through, all items carry the data they announce. */
  lemma AllThrough(rules: Rules, vars: seq<Item>, link: nat -> Link)
    requires rules.kind.Writing? && Distinct(vars) && forall x <- vars :: x.Writable() && Terminates(rules, x) && Packable(rules, x)
    ensures (forall package <- CreatePackages(rules, vars).0 :: Sendable(package)) <==> forall x <- vars :: SplitSafe(rules, x)
  {
    hide CreatePackages, Sendable, Slices, Packable, Terminates, SplitSafe, Item.Writable;
    var packages := CreatePackages(rules, vars).0;
    if forall package <- packages :: Sendable(package) {
      FlatSendable(packages);
      forall x | x in vars ensures SplitSafe(rules, x) {
        SlicesTravel(rules, vars, x);
        SendableIff(rules, x);
      }
    } else {
      var k :| 0 <= k < |packages| && !Sendable(packages[k]);
      var n := FirstBad(packages, k);
      FirstUnsendable(rules, vars, n);
    }
  }

  lemma {:induction false} FirstBad(packages: seq<Package>, k: nat) returns (n: nat)
    requires k < |packages| && !Sendable(packages[k])
    ensures n <= k && !Sendable(packages[n]) && forall i | 0 <= i < n :: Sendable(packages[i])
  {
    hide Sendable;
    n := 0;
    while Sendable(packages[n])
      invariant n <= k && forall i | 0 <= i < n :: Sendable(packages[i])
      decreases k - n
    {
      n := n + 1;
    }
  }

  /** The slices of a requested item are among the pieces that travel. */
  lemma SlicesTravel(rules: Rules, vars: seq<Item>, x: Item)
    requires rules.kind.Writing? && Distinct(vars) && x in vars && x.Writable()
    requires forall y <- vars :: Terminates(rules, y) && Packable(rules, y)
    requires Sendable(Flat(CreatePackages(rules, vars).0))
    ensures Sendable(Slices(x, MaxLength(rules))) && (MaxLength(rules) > 0 || x.count == 0)
  {
    hide CreatePackages, Slices, Piece.HasData, Request.Writable;
    NothingLostOrDuplicated(rules, vars, x);
    OfContains(Flat(CreatePackages(rules, vars).0), x);
  }

  /** The memory is what executing the packages that reached the PLC makes of it. */
  ghost predicate Reached(mem: Memory, now: Memory, packages: seq<Package>, link: nat -> Link) {
    var n := Executed(packages, link);
    Sendable(Flat(packages[..n])) && now == Execute(mem, Requests(Flat(packages[..n])))
  }

  /** Which of the ways to end a call takes that has started its jobs. */
  ghost predicate EndsAs(outcome: Outcome, packages: seq<Package>, fails: bool, link: nat -> Link) {
    var n := Stop(packages, link, 0);
    && (outcome.EncoderThrew? <==> n < |packages| && !Sendable(packages[n]))
    && (outcome.EmptyList? <==> n < |packages| && Sendable(packages[n]) && link(n).Unsent?)
    && (outcome.TimedOut? <==> n < |packages| && Sendable(packages[n]) && link(n).Unanswered?)
    && (outcome.GeneratorFailed? <==> n == |packages| && fails)
    && (outcome.Done? <==> n == |packages| && !fails)
  }

  /** The codes of the whole writes, in request order. */
  ghost predicate CodesOf(mem: Memory, vars: seq<Item>, codes: seq<ReturnCode>) {
    |codes| == |vars| && forall i | 0 <= i < |vars| :: codes[i] == Status(mem, Whole(vars[i]).WriteRequest())
  }

  /** Every bit gets the same value from the item that hits it last and from the last one requested to hit it. */
  ghost predicate SameValues(mem: Memory, rules: Rules, vars: seq<Item>)
    requires Accepted(rules, vars)
  {
    AllSendable(rules, vars);
    forall a: BitAddress | Exists(mem, a) ::
      Put(mem, Winner(mem, Pieces(rules, vars), a), a) == Put(mem, Winner(mem, Wholes(vars), a), a)
  }

  /** The memory is that of whole writes in request order. */
  ghost predicate AsRequested(mem: Memory, now: Memory, vars: seq<Item>) {
    Sendable(Wholes(vars)) && now == Execute(mem, Requests(Wholes(vars)))
  }

  /**
   * Writes a list of items. Every way in which the call can end has its exact condition; the memory is in each case
   * what executing the packages that reached the PLC makes of it. A call that is done returns every item's code, in
   * request order, and leaves the memory of whole writes in request order exactly when the items that travel last put the
   * values of those requested last.
   */
  method WriteAsync(plc: SimulationPlcDataProvider, connected: bool, link: nat -> Link, pduSize: u16, vars: seq<Item>)
    returns (outcome: Outcome)
    requires plc.Valid() && forall x <- vars :: x.Writable() && Terminates(Rules(Writing, pduSize), x)
    modifies plc.Arrays()
    ensures plc.Valid()
    ensures outcome.NotConnected? <==> !connected
    ensures outcome.DuplicateItem? <==> connected && !Distinct(vars)
    ensures outcome.NotConnected? || outcome.DuplicateItem? ==> plc.Contents() == old(plc.Contents())
    ensures connected && Distinct(vars) ==>
              var (packages, fails) := CreatePackages(Rules(Writing, pduSize), vars);
              && (fails <==> exists x <- vars :: !Packable(Rules(Writing, pduSize), x))
              && Reached(old(plc.Contents()), plc.Contents(), packages, link)
              && EndsAs(outcome, packages, fails, link)
    ensures connected && Distinct(vars) && (forall x <- vars :: Packable(Rules(Writing, pduSize), x)) && (forall k :: link(k).Answered?) ==>
              (outcome.EncoderThrew? <==> exists x <- vars :: !SplitSafe(Rules(Writing, pduSize), x))
    ensures outcome.Done? ==> Accepted(Rules(Writing, pduSize), vars) && CodesOf(old(plc.Contents()), vars, outcome.codes)
    ensures outcome.Done? ==>
              (AsRequested(old(plc.Contents()), plc.Contents(), vars) <==>
               SameValues(old(plc.Contents()), Rules(Writing, pduSize), vars))
  {
    hide Sendable, Requests, Statuses, Merge, Execute, CreatePackages, Packable, SplitSafe, Item.Writable, Terminates,
         Flat, Stop, Executed, Accepted, SameValues, AsRequested, CodesOf, EndsAs, Reached, GoesThrough;
    var rules := Rules(Writing, pduSize);
    ghost var mem := plc.Contents();
    if !connected {
      return NotConnected;
    }
    var entries := ToDictionary(vars);
    if entries.None? {
      return DuplicateItem;
    }
    GeneratorSucceeds(rules, vars);
    var packages, failed := CreateWritePackages(pduSize, vars);
    var codes, stop, encoderThrew := RunJobs(plc, link, entries.value, packages, rules, vars);
    ghost var expected := CreatePackages(rules, vars).0;
    ReachedBy(mem, plc.Contents(), expected, link);
    ThroughIff(rules, vars, link);
    if encoderThrew {
      outcome := EncoderThrew;
    } else if stop < |packages| {
      outcome := if link(stop) == Unsent then EmptyList else TimedOut;
    } else if failed {
      outcome := GeneratorFailed;
    } else {
      var current := codes;
      outcome := Done(seq(|vars|, i requires 0 <= i < |vars| => if vars[i] in current then current[vars[i]] else Success));
      AllDone(mem, rules, vars, link, codes, outcome.codes);
    }
    StopReached(expected, link, stop);
    EndsBy(outcome, expected, failed, link);
  }

  lemma ReachedBy(mem: Memory, now: Memory, packages: seq<Package>, link: nat -> Link)
    requires Sendable(Flat(packages[..Executed(packages, link)]))
    requires now == Execute(mem, Requests(Flat(packages[..Executed(packages, link)])))
    ensures Reached(mem, now, packages, link)
  {}

  lemma StopReached(packages: seq<Package>, link: nat -> Link, n: nat)
    requires n == Stop(packages, link, 0)
    ensures n < |packages| ==> !(Sendable(packages[n]) && link(n).Answered?)
  {}

  lemma EndsBy(outcome: Outcome, packages: seq<Package>, fails: bool, link: nat -> Link)
    requires !outcome.NotConnected? && !outcome.DuplicateItem?
    requires var n := Stop(packages, link, 0);
             if n < |packages| && !Sendable(packages[n]) then outcome.EncoderThrew?
             else if n < |packages| then (if link(n).Unsent? then outcome.EmptyList? else outcome.TimedOut?)
             else if fails then outcome.GeneratorFailed? else outcome.Done?
    ensures EndsAs(outcome, packages, fails, link)
  {
    hide Sendable;
    StopReached(packages, link, Stop(packages, link, 0));
  }

  /** When all jobs are answered, the call stops early exactly at a package that cannot be encoded. */
  lemma ThroughUnless(rules: Rules, vars: seq<Item>, link: nat -> Link)
    requires forall x <- vars :: Terminates(rules, x)
    ensures var packages := CreatePackages(rules, vars).0;
            var n := Stop(packages, link, 0);
            (forall k :: link(k).Answered?) ==>
              ((n < |packages| && !Sendable(packages[n])) <==> exists package <- packages :: !Sendable(package))
  {
    hide CreatePackages, Sendable;
    var packages := CreatePackages(rules, vars).0;
    var n := Stop(packages, link, 0);
    if n == |packages| {
      forall package | package in packages ensures Sendable(package) {
        var j :| 0 <= j < |packages| && packages[j] == package;
        assert GoesThrough(packages[j], link(j));
      }
    } else {
      assert packages[n] in packages;
    }
  }

  lemma ThroughIff(rules: Rules, vars: seq<Item>, link: nat -> Link)
    requires rules.kind.Writing? && Distinct(vars) && forall x <- vars :: x.Writable() && Terminates(rules, x)
    ensures var packages := CreatePackages(rules, vars).0;
            var n := Stop(packages, link, 0);
            (forall x <- vars :: Packable(rules, x)) && (forall k :: link(k).Answered?) ==>
              ((n < |packages| && !Sendable(packages[n])) <==> exists x <- vars :: !SplitSafe(rules, x))
  {
    hide CreatePackages, Sendable, Packable, SplitSafe, Stop, Item.Writable, Terminates;
    if forall x <- vars :: Packable(rules, x) {
      AllThrough(rules, vars, link);
      ThroughUnless(rules, vars, link);
    }
  }

  /** What holds when all jobs went through and the generator did not fail. */
  lemma AllDone(mem: Memory, rules: Rules, vars: seq<Item>, link: nat -> Link, merged: Codes, codes: seq<ReturnCode>)
    requires rules.kind.Writing? && Distinct(vars) && forall x <- vars :: x.Writable() && Terminates(rules, x) && Packable(rules, x)
    requires Stop(CreatePackages(rules, vars).0, link, 0) == |CreatePackages(rules, vars).0|
    requires var packages := CreatePackages(rules, vars).0;
             var done := Flat(packages[..|packages|]);
             Sendable(done) && merged == Merge(map x | x in vars :: Success, done, Statuses(mem, done))
    requires |codes| == |vars|
    requires forall i | 0 <= i < |vars| :: codes[i] == if vars[i] in merged then merged[vars[i]] else Success
    ensures Accepted(rules, vars) && CodesOf(mem, vars, codes)
    ensures Sendable(Pieces(rules, vars))
    ensures var packages := CreatePackages(rules, vars).0;
            var n := Executed(packages, link);
            Flat(packages[..n]) == Pieces(rules, vars)
    ensures AsRequested(mem, Execute(mem, Requests(Pieces(rules, vars))), vars) <==> SameValues(mem, rules, vars)
  {
    hide CreatePackages, Sendable, Execute, Requests, Merge, Statuses, Put, Winner, Packable, Terminates, SplitSafe,
         Item.Writable;
    var packages := CreatePackages(rules, vars).0;
    assert packages[..|packages|] == packages;
    forall package | package in packages ensures Sendable(package) {
      var j :| 0 <= j < |packages| && packages[j] == package;
      assert GoesThrough(packages[j], link(j));
    }
    AllThrough(rules, vars, link);
    AllSendable(rules, vars);
    AllCodes(mem, rules, vars);
    forall i | 0 <= i < |vars| ensures codes[i] == Status(mem, Whole(vars[i]).WriteRequest()) {
      assert vars[i] in vars;
    }
    WriteOrderIff(mem, rules, vars);
  }
}
