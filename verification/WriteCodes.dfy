/** Collecting one return code per item from the results of its pieces. */
module WriteCodes {
  import opened Basics
  import opened Plc
  import opened Packing
  import opened Generator
  import opened Coverage

  /** The result dictionary, filled with Success before the first job. */
  type Codes = map<Item, ReturnCode>

  /** The code of a whole item is stored; the code of a child only while its parent still counts as successful. */
  function Absorb(before: ReturnCode, piece: Piece, code: ReturnCode): ReturnCode {
    if piece.Part? && before != Success then before else code
  }

  function Merge(codes: Codes, pieces: seq<Piece>, results: seq<ReturnCode>): Codes
    decreases |pieces|
  {
    if pieces == [] || results == [] then codes
    else
      var x := pieces[0].item;
      var next := if x in codes then codes[x := Absorb(codes[x], pieces[0], results[0])]
                  else if pieces[0].Whole? then codes[x := results[0]] else codes;
      Merge(next, pieces[1..], results[1..])
  }

  /** Requests that carry the data they announce. */
  predicate Sendable(pieces: seq<Piece>) {
    forall p <- pieces :: p.HasData() && p.WriteRequest().Writable()
  }

  function Requests(pieces: seq<Piece>): (requests: seq<Request>)
    requires Sendable(pieces)
    ensures |requests| == |pieces|
    ensures forall i | 0 <= i < |pieces| :: requests[i] == pieces[i].WriteRequest()
    ensures forall w <- requests :: w.Writable()
  {
    seq(|pieces|, i requires 0 <= i < |pieces| => pieces[i].WriteRequest())
  }

  function Statuses(mem: Memory, pieces: seq<Piece>): (codes: seq<ReturnCode>)
    requires Sendable(pieces)
    ensures |codes| == |pieces|
    ensures forall i | 0 <= i < |pieces| :: codes[i] == Status(mem, pieces[i].WriteRequest())
  {
    seq(|pieces|, i requires 0 <= i < |pieces| => Status(mem, pieces[i].WriteRequest()))
  }

  /** What becomes of one item's code when the results of its own pieces arrive in order. */
  function Gather(mem: Memory, code: ReturnCode, pieces: seq<Piece>): ReturnCode
    requires Sendable(pieces)
    decreases |pieces|
  {
    if pieces == [] then code
    else Gather(mem, Absorb(code, pieces[0], Status(mem, pieces[0].WriteRequest())), pieces[1..])
  }

  /** The first code in order that is not Success, or Success when there is none. */
  function FirstFailure(mem: Memory, pieces: seq<Piece>): ReturnCode
    requires Sendable(pieces)
  {
    if pieces == [] then Success
    else if Status(mem, pieces[0].WriteRequest()) != Success then Status(mem, pieces[0].WriteRequest())
    else FirstFailure(mem, pieces[1..])
  }

  lemma FirstSendable(p: Piece, rest: seq<Piece>)
    requires Sendable([p] + rest)
    ensures p.HasData() && p.WriteRequest().Writable() && Sendable(rest)
    ensures ([p] + rest)[0] == p && ([p] + rest)[1..] == rest
  {
    assert p in [p] + rest;
  }

  lemma {:induction false} MergeByItem(mem: Memory, codes: Codes, pieces: seq<Piece>, x: Item)
    requires Sendable(pieces) && Sendable(Of(pieces, x)) && x in codes && forall p <- pieces :: p.item in codes
    ensures var merged := Merge(codes, pieces, Statuses(mem, pieces));
            merged.Keys == codes.Keys && merged[x] == Gather(mem, codes[x], Of(pieces, x))
    decreases |pieces|
  {
    if pieces != [] {
      hide Piece.HasData, Request.Writable, Status, Absorb;
      var p := pieces[0];
      assert p in pieces && Sendable(pieces[1..]);
      var next := codes[p.item := Absorb(codes[p.item], p, Status(mem, p.WriteRequest()))];
      assert Statuses(mem, pieces)[1..] == Statuses(mem, pieces[1..]);
      if p.item == x {
        assert Of(pieces, x) == [p] + Of(pieces[1..], x);
        FirstSendable(p, Of(pieces[1..], x));
      } else {
        assert Of(pieces, x) == Of(pieces[1..], x);
      }
      MergeByItem(mem, next, pieces[1..], x);
    }
  }

  lemma {:induction false} MergeAppends(codes: Codes, a: seq<Piece>, b: seq<Piece>, u: seq<ReturnCode>, v: seq<ReturnCode>)
    requires |a| == |u|
    ensures Merge(codes, a + b, u + v) == Merge(Merge(codes, a, u), b, v)
    decreases |a|
  {
    if a == [] {
      assert a + b == b && u + v == v;
    } else {
      assert (a + b)[1..] == a[1..] + b && (u + v)[1..] == u[1..] + v;
      var x := a[0].item;
      var next := if x in codes then codes[x := Absorb(codes[x], a[0], u[0])]
                  else if a[0].Whole? then codes[x := u[0]] else codes;
      MergeAppends(next, a[1..], b, u[1..], v);
    }
  }

  // ---- the code of one item ----

  /** A cut item keeps the first failure in offset order. */
  lemma {:induction false} GatherIsFirstFailure(mem: Memory, pieces: seq<Piece>)
    requires Sendable(pieces) && forall p <- pieces :: p.Part?
    ensures Gather(mem, Success, pieces) == FirstFailure(mem, pieces)
  {
    if pieces != [] {
      assert pieces == [pieces[0]] + pieces[1..];
      FirstSendable(pieces[0], pieces[1..]);
      var code := Status(mem, pieces[0].WriteRequest());
      if code != Success {
        GatherSticks(mem, code, pieces[1..]);
      } else {
        GatherIsFirstFailure(mem, pieces[1..]);
      }
    }
  }

  lemma {:induction false} GatherSticks(mem: Memory, code: ReturnCode, pieces: seq<Piece>)
    requires Sendable(pieces) && code != Success && forall p <- pieces :: p.Part?
    ensures Gather(mem, code, pieces) == code
  {
    if pieces != [] {
      assert pieces == [pieces[0]] + pieces[1..];
      FirstSendable(pieces[0], pieces[1..]);
      GatherSticks(mem, code, pieces[1..]);
    }
  }

  /** The first failure among the slices is the code of the whole write. */
  lemma {:induction false} SlicesFail(mem: Memory, x: Item, max: u16, done: nat)
    requires max > 0 && done < x.count && x.elementSize == 1 && !x.bit
    requires Sendable(SlicesFrom(x, max, done))
    ensures FirstFailure(mem, SlicesFrom(x, max, done)) == Status(mem, Whole(x).WriteRequest())
    decreases x.count - done
  {
    hide Status, Sendable, Piece.HasData, Request.Writable, Piece.WriteRequest;
    var slice := Min(max, x.count - done);
    var p := Part(x, x.offset + done, slice);
    var rest := SlicesFrom(x, max, done + slice);
    assert SlicesFrom(x, max, done) == [p] + rest;
    FirstSendable(p, rest);
    SliceStatus(mem, x, p);
    if done + slice < x.count {
      SlicesFail(mem, x, max, done + slice);
    } else {
      assert rest == [];
    }
  }

  /** A slice that fails does so like the whole; the last slice succeeds like the whole. */
  lemma SliceStatus(mem: Memory, x: Item, p: Piece)
    requires p.Part? && p.item == x && x.elementSize == 1 && !x.bit && p.HasData()
    requires x.offset <= p.start && p.start + p.length <= x.offset + x.count
    ensures var status, whole := Status(mem, p.WriteRequest()), Status(mem, Whole(x).WriteRequest());
            && (status != Success ==> status == whole)
            && (status == Success && p.start + p.length == x.offset + x.count ==> whole == Success)
  {}

  /** Data of a child counts bytes, so only single-byte items can be cut. */
  predicate SplitSafe(rules: Rules, x: Item) {
    x.elementSize == 1 || x.count <= MaxLength(rules)
  }

  /** A child of a single-byte item carries as many bytes as it announces; a child of a wider item never does. */
  lemma ChildSendable(x: Item, p: Piece)
    requires x.Writable() && !x.bit && p.Part? && p.item == x && 0 < p.length
    requires x.offset <= p.start && p.start + p.length <= x.offset + x.count
    ensures p.HasData()
    ensures p.WriteRequest().Writable() <==> x.elementSize == 1
  {
    x.DataPerUnit();
    Widens(p.length, x.elementSize);
  }

  /** Exactly the split-safe items are cut into requests that carry the data they announce. */
  lemma SendableIff(rules: Rules, x: Item)
    requires x.Writable() && (MaxLength(rules) > 0 || x.count == 0)
    ensures Sendable(Slices(x, MaxLength(rules))) <==> SplitSafe(rules, x)
  {
    hide Request.Writable, Piece.HasData, Piece.WriteRequest;
    var max := MaxLength(rules);
    var pieces := Slices(x, max);
    if x.count > max {
      SlicesFromTile(x, max, 0);
      forall p | p in pieces ensures p.HasData() && (p.WriteRequest().Writable() <==> x.elementSize == 1) {
        ChildSendable(x, p);
      }
      assert pieces[0] in pieces;
    } else {
      WholeSendable(x);
    }
  }

  lemma WholeSendable(x: Item)
    requires x.Writable()
    ensures Whole(x).HasData() && Whole(x).WriteRequest().Writable()
  {}

  lemma GatherItem(mem: Memory, rules: Rules, x: Item)
    requires x.Writable() && SplitSafe(rules, x) && (MaxLength(rules) > 0 || x.count == 0)
    requires Sendable(Slices(x, MaxLength(rules)))
    ensures Gather(mem, Success, Slices(x, MaxLength(rules))) == Status(mem, Whole(x).WriteRequest())
  {
    if x.count > MaxLength(rules) {
      SlicesFromTile(x, MaxLength(rules), 0);
      GatherIsFirstFailure(mem, Slices(x, MaxLength(rules)));
      SlicesFail(mem, x, MaxLength(rules), 0);
    } else {
      GatherWhole(mem, Success, x);
      assert Slices(x, MaxLength(rules)) == [Whole(x)];
    }
  }

  /** The code of a whole item replaces whatever is stored for it. */
  lemma GatherWhole(mem: Memory, code: ReturnCode, x: Item)
    requires Sendable([Whole(x)])
    ensures Whole(x).HasData() && Gather(mem, code, [Whole(x)]) == Status(mem, Whole(x).WriteRequest())
  {
    assert [Whole(x)] == [Whole(x)] + [];
    FirstSendable(Whole(x), []);
  }

  // ---- the codes of a whole call ----

  /** Distinct items that can be packed and carry their data. */
  ghost predicate Accepted(rules: Rules, vars: seq<Item>) {
    && rules.kind.Writing? && Distinct(vars)
    && forall x <- vars :: x.Writable() && SplitSafe(rules, x) && Terminates(rules, x) && Packable(rules, x)
  }

  lemma AllSendable(rules: Rules, vars: seq<Item>)
    requires Accepted(rules, vars)
    ensures Sendable(Pieces(rules, vars)) && Sendable(Wholes(vars))
    ensures forall x <- vars :: Sendable(Slices(x, MaxLength(rules)))
  {
    forall x | x in vars ensures Sendable(Slices(x, MaxLength(rules))) && Sendable([Whole(x)]) {
      SendableIff(rules, x);
      WholeSendable(x);
    }
    forall p | p in Pieces(rules, vars) ensures p.HasData() && p.WriteRequest().Writable() {
      PiecesAreSlices(rules, vars, p);
    }
    forall p | p in Wholes(vars) ensures p.HasData() && p.WriteRequest().Writable() {
      WholeSendable(p.item);
    }
  }

  /** The codes of all items after all jobs. */
  lemma AllCodes(mem: Memory, rules: Rules, vars: seq<Item>)
    requires Accepted(rules, vars) && Sendable(Pieces(rules, vars))
    ensures var merged := Merge(map x | x in vars :: Success, Pieces(rules, vars), Statuses(mem, Pieces(rules, vars)));
            && merged.Keys == (set x <- vars)
            && forall x <- vars :: merged[x] == Status(mem, Whole(x).WriteRequest())
  {
    var codes: Codes := map x | x in vars :: Success;
    var pieces := Pieces(rules, vars);
    AllSendable(rules, vars);
    forall p | p in pieces ensures p.item in codes {
      PiecesAreSlices(rules, vars, p);
    }
    if vars == [] {
      assert pieces == [];
    }
    forall x | x in vars
      ensures Merge(codes, pieces, Statuses(mem, pieces)).Keys == codes.Keys
      ensures Merge(codes, pieces, Statuses(mem, pieces))[x] == Status(mem, Whole(x).WriteRequest())
    {
      NothingLostOrDuplicated(rules, vars, x);
      MergeByItem(mem, codes, pieces, x);
      GatherItem(mem, rules, x);
    }
    if vars != [] {
      assert vars[0] in vars;
    }
  }
}
