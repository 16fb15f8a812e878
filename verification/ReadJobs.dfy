/** Answering read packages and gluing the answers back together. */
module ReadJobs {
  import opened Basics
  import opened Plc
  import opened Packing
  import opened Generator
  import opened Coverage
  import opened ReadPackages

  /** The result dictionary; an entry is null until its first answer arrives. */
  type Results = map<Item, Option<Answer>>

  function Entry(results: Results, x: Item): Option<Answer> {
    if x in results then results[x] else None
  }

  function Zeros(n: nat): (zeros: seq<bv8>)
    ensures |zeros| == n && forall b <- zeros :: b == 0
  {
    seq(n, _ => 0)
  }

  /** The entry of a piece's item after the piece's answer; None when copying into the parent's buffer throws. */
  function Absorb(entry: Option<Answer>, piece: Piece, answer: Answer): Option<Answer> {
    if piece.Whole? then Some(answer)
    else
      var buffer := if entry.Some? then entry.value.data else Zeros(piece.item.count);
      var at := piece.start - piece.item.offset;
      if 0 <= at && at + piece.length <= |buffer| && |answer.data| <= piece.length
      then Some(Answer(answer.code, Overlay(buffer, at, answer.data)))
      else None
  }

  /** The dictionary after the answers of a telegram, taken together with its items pair by pair. */
  function Merge(results: Results, pieces: seq<Piece>, answers: seq<Answer>): Option<Results>
    decreases |pieces|
  {
    if pieces == [] || answers == [] then Some(results)
    else
      match Absorb(Entry(results, pieces[0].item), pieces[0], answers[0])
      case None => None
      case Some(answer) => Merge(results[pieces[0].item := Some(answer)], pieces[1..], answers[1..])
  }

  predicate Requestable(pieces: seq<Piece>) {
    forall p <- pieces :: p.ReadRequest().Readable()
  }

  /** The simulated PLC's answers to the pieces. */
  function Answers(mem: Memory, pieces: seq<Piece>): (answers: seq<Answer>)
    requires Requestable(pieces)
    ensures |answers| == |pieces|
  {
    if pieces == [] then [] else [Read(mem, pieces[0].ReadRequest())] + Answers(mem, pieces[1..])
  }

  /** What becomes of one entry when the answers to its own pieces arrive in order. */
  function Gather(mem: Memory, entry: Option<Answer>, pieces: seq<Piece>): Option<Option<Answer>>
    requires Requestable(pieces)
    decreases |pieces|
  {
    if pieces == [] then Some(entry)
    else
      match Absorb(entry, pieces[0], Read(mem, pieces[0].ReadRequest()))
      case None => None
      case Some(answer) => Gather(mem, Some(answer), pieces[1..])
  }

  // ---- the order of the packages does not matter, only the order within an item ----

  lemma {:induction false} MergeByItem(mem: Memory, results: Results, pieces: seq<Piece>, x: Item)
    requires Requestable(pieces) && Requestable(Of(pieces, x))
    ensures var merged := Merge(results, pieces, Answers(mem, pieces));
            merged.Some? ==> Gather(mem, Entry(results, x), Of(pieces, x)) == Some(Entry(merged.value, x))
    decreases |pieces|
  {
    if pieces != [] {
      var p := pieces[0];
      var absorbed := Absorb(Entry(results, p.item), p, Read(mem, p.ReadRequest()));
      assert Answers(mem, pieces)[0] == Read(mem, p.ReadRequest());
      assert Answers(mem, pieces)[1..] == Answers(mem, pieces[1..]);
      if absorbed.Some? {
        var next := results[p.item := Some(absorbed.value)];
        assert Merge(results, pieces, Answers(mem, pieces)) == Merge(next, pieces[1..], Answers(mem, pieces[1..]));
        if p.item == x {
          assert Of(pieces, x) == [p] + Of(pieces[1..], x);
          FirstRequestable(p, Of(pieces[1..], x));
        } else {
          assert Of(pieces, x) == Of(pieces[1..], x);
        }
        MergeByItem(mem, next, pieces[1..], x);
      }
    }
  }

  lemma {:induction false} MergeSucceeds(mem: Memory, results: Results, pieces: seq<Piece>)
    requires Requestable(pieces)
    requires forall x :: Requestable(Of(pieces, x)) && Gather(mem, Entry(results, x), Of(pieces, x)).Some?
    ensures Merge(results, pieces, Answers(mem, pieces)).Some?
    decreases |pieces|
  {
    if pieces != [] {
      var p := pieces[0];
      assert Gather(mem, Entry(results, p.item), Of(pieces, p.item)).Some?;
      var answer := Absorb(Entry(results, p.item), p, Read(mem, p.ReadRequest())).value;
      var next := results[p.item := Some(answer)];
      forall x ensures Requestable(Of(pieces[1..], x)) && Gather(mem, Entry(next, x), Of(pieces[1..], x)).Some? {
        assert Requestable(Of(pieces, x)) && Gather(mem, Entry(results, x), Of(pieces, x)).Some?;
        if x == p.item {
          assert Of(pieces, x)[1..] == Of(pieces[1..], x);
        } else {
          assert Of(pieces, x) == Of(pieces[1..], x);
        }
      }
      MergeSucceeds(mem, next, pieces[1..]);
    }
  }

  lemma {:induction false} MergeAppends(results: Results, a: seq<Piece>, b: seq<Piece>, u: seq<Answer>, v: seq<Answer>)
    requires |a| == |u|
    ensures Merge(results, a + b, u + v) ==
            match Merge(results, a, u) case None => None case Some(middle) => Merge(middle, b, v)
    decreases |a|
  {
    if a == [] {
      assert a + b == b && u + v == v;
    } else {
      assert (a + b)[1..] == a[1..] + b && (u + v)[1..] == u[1..] + v;
      var absorbed := Absorb(Entry(results, a[0].item), a[0], u[0]);
      if absorbed.Some? {
        MergeAppends(results[a[0].item := Some(absorbed.value)], a[1..], b, u[1..], v);
      }
    }
  }

  lemma {:induction false} AnswersAppend(mem: Memory, a: seq<Piece>, b: seq<Piece>)
    requires Requestable(a) && Requestable(b)
    ensures Answers(mem, a + b) == Answers(mem, a) + Answers(mem, b)
  {
    if a == [] {
      assert a + b == b;
    } else {
      assert (a + b)[1..] == a[1..] + b;
      AnswersAppend(mem, a[1..], b);
    }
  }

  // ---- one item ----

  /** One slice: its bytes are its share of the whole, and the last slice's code is the code of the whole. */
  lemma SliceAnswer(mem: Memory, x: Item, done: nat, slice: u16)
    requires x.elementSize == 1 && !x.bit && done + slice <= x.count
    ensures var whole := Read(mem, Whole(x).ReadRequest());
            var answer := Read(mem, Part(x, x.offset + done, slice).ReadRequest());
            && |answer.data| <= slice
            && (whole.code == Success ==> |whole.data| == x.count && answer.data == whole.data[done..done + slice])
            && (done + slice == x.count ==> answer.code == whole.code)
  {
    if Read(mem, Whole(x).ReadRequest()).code == Success {
      SliceOfSlice(mem[x.block], x.offset, x.count, done, slice);
    }
  }

  lemma SliceOfSlice(bytes: seq<bv8>, offset: nat, count: nat, done: nat, slice: nat)
    requires offset + count <= |bytes| && done + slice <= count
    ensures bytes[offset + done..offset + done + slice] == bytes[offset..offset + count][done..done + slice]
  {
    var direct, twice := bytes[offset + done..offset + done + slice], bytes[offset..offset + count][done..done + slice];
    assert |direct| == |twice| && forall k | 0 <= k < slice :: direct[k] == bytes[offset + done + k] == twice[k];
  }

  /** The slices' answers, glued together, are the answer to the whole: same code, and same bytes on success. */
  lemma {:induction false} GatherSlices(mem: Memory, x: Item, max: u16, done: nat, entry: Option<Answer>)
    requires max > 0 && done <= x.count && x.elementSize == 1 && !x.bit
    requires entry.Some? ==> |entry.value.data| == x.count
    requires Requestable(SlicesFrom(x, max, done))
    ensures var whole := Read(mem, Whole(x).ReadRequest());
            var gathered := Gather(mem, entry, SlicesFrom(x, max, done));
            var before := if entry.Some? then entry.value.data else Zeros(x.count);
            && gathered.Some?
            && (done < x.count ==>
                  && gathered.value.Some? && |gathered.value.value.data| == x.count
                  && gathered.value.value.code == whole.code
                  && (whole.code == Success ==>
                        |whole.data| == x.count && gathered.value.value.data == before[..done] + whole.data[done..]))
    decreases x.count - done
  {
    hide Read, Requestable, Overlay, Zeros;
    if done < x.count {
      var slice := Min(max, x.count - done);
      var p := Part(x, x.offset + done, slice);
      var rest := SlicesFrom(x, max, done + slice);
      assert SlicesFrom(x, max, done) == [p] + rest;
      FirstRequestable(p, rest);
      var before := if entry.Some? then entry.value.data else Zeros(x.count);
      SliceAnswer(mem, x, done, slice);
      var answer := Read(mem, p.ReadRequest());
      var whole := Read(mem, Whole(x).ReadRequest());
      var absorbed := Absorb(entry, p, answer);
      assert absorbed == Some(Answer(answer.code, Overlay(before, done, answer.data)));
      GatherSlices(mem, x, max, done + slice, absorbed);
      if whole.code == Success {
        Glue(before, whole.data, done, slice);
      }
    }
  }

  /** The buffer with the bytes copied to a position. */
  function Overlay(buffer: seq<bv8>, at: nat, bytes: seq<bv8>): (r: seq<bv8>)
    requires at + |bytes| <= |buffer|
    ensures |r| == |buffer|
  {
    buffer[..at] + bytes + buffer[at + |bytes|..]
  }

  lemma Glue(buffer: seq<bv8>, whole: seq<bv8>, done: nat, slice: nat)
    requires |buffer| == |whole| && done + slice <= |whole|
    ensures Overlay(buffer, done, whole[done..done + slice])[..done + slice] + whole[done + slice..] ==
            buffer[..done] + whole[done..]
  {}

  // ---- gluing whatever the PLC answers ----

  /** The bytes of the answers, each filled up with zeros to the length of its slice. */
  function Padded(slices: seq<Piece>, answers: seq<Answer>): (bytes: seq<bv8>)
    requires |slices| == |answers| && forall i | 0 <= i < |slices| :: |answers[i].data| <= slices[i].Count()
    decreases |slices|
  {
    if slices == [] then []
    else answers[0].data + Zeros(slices[0].Count() - |answers[0].data|) + Padded(slices[1..], answers[1..])
  }

  lemma OverlayZeros(before: seq<bv8>, data: seq<bv8>, length: nat, rest: nat)
    requires |data| <= length
    ensures Overlay(before + Zeros(length + rest), |before|, data) == (before + (data + Zeros(length - |data|))) + Zeros(rest)
  {}

  /** Gluing puts the bytes of all answers in order and keeps the code of the last one, whatever they are. */
  lemma {:induction false} GlueAny(x: Item, max: u16, done: nat, results: Results, before: seq<bv8>, answers: seq<Answer>)
    requires max > 0 && done < x.count && |before| == done
    requires |answers| == |SlicesFrom(x, max, done)|
    requires forall i | 0 <= i < |answers| :: |answers[i].data| <= SlicesFrom(x, max, done)[i].Count()
    requires if Entry(results, x).Some? then Entry(results, x).value.data == before + Zeros(x.count - done) else before == []
    ensures Merge(results, SlicesFrom(x, max, done), answers) ==
            Some(results[x := Some(Answer(answers[|answers| - 1].code, before + Padded(SlicesFrom(x, max, done), answers)))])
    decreases x.count - done
  {
    hide Overlay, Zeros, Absorb, Padded, Merge, SlicesFrom;
    var slice := Min(max, x.count - done);
    var p := Part(x, x.offset + done, slice);
    var slices, rest := SlicesFrom(x, max, done), SlicesFrom(x, max, done + slice);
    var left := x.count - done - slice;
    SlicesStep(x, max, done);
    assert slices[0] == p && slices[1..] == rest && |answers[0].data| <= slice;
    var padded := answers[0].data + Zeros(slice - |answers[0].data|);
    AbsorbAny(Entry(results, x), p, done, before, answers[0], left);
    var absorbed := Answer(answers[0].code, (before + padded) + Zeros(left));
    var next := results[x := Some(absorbed)];
    forall i | 0 <= i < |answers| - 1 ensures |answers[1..][i].data| <= rest[i].Count() {
      assert slices[i + 1] == rest[i];
    }
    PaddedStep(slices, answers);
    MergeStep(results, slices, answers, absorbed);
    if done + slice < x.count {
      SlicesStep(x, max, done + slice);
      GlueAny(x, max, done + slice, next, before + padded, answers[1..]);
      assert (before + padded) + Padded(rest, answers[1..]) == before + (padded + Padded(rest, answers[1..]));
      var glued := Answer(answers[|answers| - 1].code, (before + padded) + Padded(rest, answers[1..]));
      Overwritten(results, x, Some(absorbed), Some(glued));
    } else {
      SlicesEnd(x, max);
      NothingLeft(before, padded);
      MergeEnd(next, answers[1..]);
    }
  }

  lemma SlicesStep(x: Item, max: u16, done: nat)
    requires max > 0 && done < x.count
    ensures var slice := Min(max, x.count - done);
            SlicesFrom(x, max, done) == [Part(x, x.offset + done, slice)] + SlicesFrom(x, max, done + slice)
  {}

  lemma SlicesEnd(x: Item, max: u16)
    requires max > 0
    ensures SlicesFrom(x, max, x.count) == []
  {}

  lemma MergeStep(results: Results, pieces: seq<Piece>, answers: seq<Answer>, absorbed: Answer)
    requires pieces != [] && answers != []
    requires Absorb(Entry(results, pieces[0].item), pieces[0], answers[0]) == Some(absorbed)
    ensures Merge(results, pieces, answers) == Merge(results[pieces[0].item := Some(absorbed)], pieces[1..], answers[1..])
  {}

  lemma MergeEnd(results: Results, answers: seq<Answer>)
    ensures Merge(results, [], answers) == Some(results)
  {}

  lemma Overwritten(results: Results, x: Item, first: Option<Answer>, second: Option<Answer>)
    ensures results[x := first][x := second] == results[x := second]
  {}

  lemma AbsorbAny(entry: Option<Answer>, p: Piece, done: nat, before: seq<bv8>, answer: Answer, left: nat)
    requires p.Part? && p.start == p.item.offset + done && |before| == done && done + p.length + left == p.item.count
    requires |answer.data| <= p.length
    requires if entry.Some? then entry.value.data == before + Zeros(p.length + left) else before == []
    ensures Absorb(entry, p, answer) ==
            Some(Answer(answer.code, (before + (answer.data + Zeros(p.length - |answer.data|))) + Zeros(left)))
  {
    hide Overlay, Zeros;
    OverlayZeros(before, answer.data, p.length, left);
    assert [] + Zeros(p.length + left) == Zeros(p.length + left);
  }

  lemma PaddedStep(slices: seq<Piece>, answers: seq<Answer>)
    requires slices != [] && |slices| == |answers| && forall i | 0 <= i < |slices| :: |answers[i].data| <= slices[i].Count()
    ensures Padded(slices, answers) ==
            answers[0].data + Zeros(slices[0].Count() - |answers[0].data|) + Padded(slices[1..], answers[1..])
  {}

  lemma NothingLeft(before: seq<bv8>, padded: seq<bv8>)
    ensures Zeros(0) == [] && Padded([], []) == []
    ensures (before + padded) + [] == before + (padded + [])
  {}

  lemma FirstRequestable(p: Piece, rest: seq<Piece>)
    requires Requestable([p] + rest)
    ensures p.ReadRequest().Readable() && Requestable(rest)
    ensures ([p] + rest)[0] == p && ([p] + rest)[1..] == rest
  {
    assert p in [p] + rest;
  }

  lemma PiecesRequestable(x: Item, max: u16)
    requires x.Readable() && max > 0
    ensures Requestable(Slices(x, max))
  {
    SlicesTile(x, max);
  }

  // ---- items of several bytes that are cut: their slices overlap, and their answers do not fit ----

  lemma WideSlice(mem: Memory, x: Item, done: nat, slice: u16)
    requires x.elementSize > 1 && !x.bit && 0 < slice && done + slice <= x.count
    ensures var request := Part(x, x.offset + done, slice).ReadRequest();
            && (Status(mem, request) == Success ==> |Read(mem, request).data| > slice)
            && (Status(mem, request) != Success ==> Status(mem, request) == Status(mem, Whole(x).ReadRequest()))
  {
    Scales(done, slice, x.count, x.elementSize);
  }

  lemma Scales(done: nat, slice: nat, count: nat, elementSize: nat)
    requires 0 < slice && done + slice <= count && elementSize > 1
    ensures slice < slice * elementSize && done + slice * elementSize <= count * elementSize
  {
    Distribute(done, slice, count - done - slice, elementSize);
    Widens(slice, elementSize);
    Widens(done, elementSize);
    Widens(count - done - slice, elementSize);
  }

  lemma Distribute(a: nat, b: nat, c: nat, elementSize: nat)
    ensures (a + b + c) * elementSize == a * elementSize + b * elementSize + c * elementSize
  {}

  /** Gluing throws exactly when one of the slices is readable; else all of them have the code of the whole. */
  lemma {:induction false} GatherWide(mem: Memory, x: Item, max: u16, done: nat, entry: Option<Answer>)
    requires max > 0 && done <= x.count && x.elementSize > 1 && !x.bit
    requires entry.Some? ==> |entry.value.data| == x.count
    requires Requestable(SlicesFrom(x, max, done))
    ensures var gathered := Gather(mem, entry, SlicesFrom(x, max, done));
            && (gathered.None? <==> exists p <- SlicesFrom(x, max, done) :: Status(mem, p.ReadRequest()) == Success)
            && (gathered.Some? && done < x.count ==>
                  && gathered.value.Some?
                  && gathered.value.value.code == Status(mem, Whole(x).ReadRequest()) != Success)
    decreases x.count - done
  {
    hide Requestable, Overlay, Zeros, InRange, Request.Size;
    if done < x.count {
      var slice := Min(max, x.count - done);
      var p := Part(x, x.offset + done, slice);
      var rest := SlicesFrom(x, max, done + slice);
      assert SlicesFrom(x, max, done) == [p] + rest;
      FirstRequestable(p, rest);
      WideSlice(mem, x, done, slice);
      var absorbed := Absorb(entry, p, Read(mem, p.ReadRequest()));
      if absorbed.Some? {
        GatherWide(mem, x, max, done + slice, absorbed);
        assert forall q :: q in [p] + rest <==> q == p || q in rest;
      } else {
        assert p in [p] + rest;
      }
    }
  }

  // ---- the whole read ----

  function Empty(vars: seq<Item>): Results { map x | x in vars :: None }

  /** What the client gets: the dictionary, an empty one when a telegram was not sent, or an exception. */
  datatype Outcome =
    | Done(results: Results)
    | EmptyDictionary
    | NotConnected
    | DuplicateItem
    | CouldNotAddPackage
    | BufferTooShort
    | TimedOut

  /** The result that belongs to a whole read of x: same code, and same bytes on success. */
  predicate Matches(mem: Memory, x: Item, entry: Option<Answer>)
    requires x.Readable()
  {
    var whole := Read(mem, Whole(x).ReadRequest());
    entry.Some? && entry.value.code == whole.code && (whole.code == Success ==> entry.value.data == whole.data)
  }

  /**
   * The item has several bytes per element and is too long for one telegram, its block is registered, and the first or
   * the last of its slices is in range; the slices in between end later than the first.
   */
  predicate BufferTooSmall(mem: Memory, rules: Rules, x: Item) {
    var max := MaxLength(rules);
    x.elementSize > 1 && x.count > max > 0 && x.block in mem &&
    var last := LastSlice(x.count, max);
    || x.offset + max * x.elementSize <= |mem[x.block]|
    || x.offset + x.count - last + last * x.elementSize <= |mem[x.block]|
  }

  /** That is, one of its slices can be read. */
  lemma {:induction false} SomeSliceReadable(mem: Memory, x: Item, max: u16, done: nat)
    requires max > 0 && done < x.count && !x.bit
    ensures (exists p <- SlicesFrom(x, max, done) :: Status(mem, p.ReadRequest()) == Success) <==>
            x.block in mem &&
            var first, last := Min(max, x.count - done), LastSlice(x.count - done, max);
            (x.offset + done + first * x.elementSize <= |mem[x.block]| ||
             x.offset + x.count - last + last * x.elementSize <= |mem[x.block]|)
    decreases x.count - done
  {
    hide Status;
    var slice := Min(max, x.count - done);
    var p := Part(x, x.offset + done, slice);
    var rest := SlicesFrom(x, max, done + slice);
    assert SlicesFrom(x, max, done) == [p] + rest;
    assert forall q :: q in [p] + rest <==> q == p || q in rest;
    PartStatus(mem, p);
    if done + slice < x.count {
      SomeSliceReadable(mem, x, max, done + slice);
      EndsLater(x.offset + done, Min(max, x.count - done - slice), max, x.elementSize);
    } else {
      assert rest == [];
    }
  }

  lemma PartStatus(mem: Memory, p: Piece)
    requires !p.item.bit
    ensures Status(mem, p.ReadRequest()) == Success <==>
            p.item.block in mem && p.Offset() + p.Count() * p.item.elementSize <= |mem[p.item.block]|
  {}

  /** A full slice that follows a full one ends after it. */
  lemma EndsLater(offset: nat, next: nat, max: nat, elementSize: nat)
    requires next <= max
    ensures next == max ==> offset + max * elementSize <= offset + max + next * elementSize
  {}

  /** The pieces of one item: gluing throws, or it gives the result of the whole read. */
  lemma GatherItem(mem: Memory, rules: Rules, x: Item)
    requires rules.kind.Reading? && rules.pdu >= 24 && x.Readable()
    requires Requestable(Slices(x, MaxLength(rules)))
    ensures var gathered := Gather(mem, None, Slices(x, MaxLength(rules)));
            && (gathered.None? <==> BufferTooSmall(mem, rules, x))
            && (gathered.Some? ==> Matches(mem, x, gathered.value))
  {
    hide Status, Requestable, Absorb, LastSlice;
    if x.count <= MaxLength(rules) {
      GatherWhole(mem, None, x);
    } else if x.elementSize == 1 {
      GatherSlices(mem, x, MaxLength(rules), 0, None);
    } else {
      GatherWide(mem, x, MaxLength(rules), 0, None);
      SomeSliceReadable(mem, x, MaxLength(rules), 0);
    }
  }

  /** The answer to a whole item replaces whatever its entry holds. */
  lemma GatherWhole(mem: Memory, entry: Option<Answer>, x: Item)
    requires x.Readable() && Requestable([Whole(x)])
    ensures Gather(mem, entry, [Whole(x)]) == Some(Some(Read(mem, Whole(x).ReadRequest())))
  {
    hide Read;
  }

  lemma AllRequestable(rules: Rules, vars: seq<Item>)
    requires rules.kind.Reading? && (rules.pdu >= 24 || vars == []) && Distinct(vars) && forall x <- vars :: x.Readable()
    ensures Requestable(Pieces(rules, vars))
  {
    forall p | p in Pieces(rules, vars) ensures p.ReadRequest().Readable() {
      PiecesAreSlices(rules, vars, p);
      PiecesRequestable(p.item, MaxLength(rules));
    }
  }

  lemma {:induction false} MergeKeepsKeys(results: Results, pieces: seq<Piece>, answers: seq<Answer>)
    requires forall p <- pieces :: p.item in results
    ensures var merged := Merge(results, pieces, answers); merged.Some? ==> merged.value.Keys == results.Keys
    decreases |pieces|
  {
    if pieces != [] && answers != [] {
      var absorbed := Absorb(Entry(results, pieces[0].item), pieces[0], answers[0]);
      if absorbed.Some? {
        MergeKeepsKeys(results[pieces[0].item := Some(absorbed.value)], pieces[1..], answers[1..]);
      }
    }
  }

  lemma AllPackable(rules: Rules, vars: seq<Item>)
    requires rules.kind.Reading? && (rules.pdu >= 24 || vars == [])
    ensures forall y <- vars :: Terminates(rules, y) && Packable(rules, y)
  {}

  lemma NothingToGather(mem: Memory)
    ensures Requestable([]) && Gather(mem, None, []) == Some(None)
  {}

  lemma GatherAny(mem: Memory, rules: Rules, vars: seq<Item>, x: Item)
    requires rules.kind.Reading? && (rules.pdu >= 24 || vars == []) && Distinct(vars)
    requires forall y <- vars :: y.Readable()
    ensures Requestable(Of(Pieces(rules, vars), x))
    ensures var gathered := Gather(mem, None, Of(Pieces(rules, vars), x));
            && (gathered.None? <==> x in vars && BufferTooSmall(mem, rules, x))
            && (gathered.Some? && x in vars ==> Matches(mem, x, gathered.value))
  {
    hide Read, Gather, BufferTooSmall, Matches, Requestable, Packable, CreatePackages, Flat, Of, Slices, Filled;
    AllPackable(rules, vars);
    NothingLostOrDuplicated(rules, vars, x);
    NothingToGather(mem);
    if x in vars {
      PiecesRequestable(x, MaxLength(rules));
      GatherItem(mem, rules, x);
    }
  }

  /**
   * Packing, answering and gluing throws exactly when the buffer of some item is too small; else it gives every item
   * the result of one whole read, however the items are cut and packed.
   */
  lemma ReadRefines(mem: Memory, rules: Rules, vars: seq<Item>)
    requires rules.kind.Reading? && (rules.pdu >= 24 || vars == []) && Distinct(vars)
    requires forall x <- vars :: x.Readable()
    requires Requestable(Pieces(rules, vars))
    ensures var merged := Merge(Empty(vars), Pieces(rules, vars), Answers(mem, Pieces(rules, vars)));
            && (merged.None? <==> exists x <- vars :: BufferTooSmall(mem, rules, x))
            && (merged.Some? ==>
                  && merged.value.Keys == (set x <- vars)
                  && forall x <- vars :: Matches(mem, x, merged.value[x]))
  {
    hide Read, Merge, Gather, BufferTooSmall, Matches, Requestable, Answers, Pieces, Of;
    var pieces := Pieces(rules, vars);
    var merged := Merge(Empty(vars), pieces, Answers(mem, pieces));
    if x :| x in vars && BufferTooSmall(mem, rules, x) {
      GatherAny(mem, rules, vars, x);
      MergeByItem(mem, Empty(vars), pieces, x);
    } else {
      forall x ensures Requestable(Of(pieces, x)) && Gather(mem, Entry(Empty(vars), x), Of(pieces, x)).Some? {
        GatherAny(mem, rules, vars, x);
      }
      MergeSucceeds(mem, Empty(vars), pieces);
      AllPackable(rules, vars);
      forall p | p in pieces ensures p.item in vars {
        PiecesAreSlices(rules, vars, p);
      }
      MergeKeepsKeys(Empty(vars), pieces, Answers(mem, pieces));
      forall x | x in vars ensures Matches(mem, x, merged.value[x]) {
        GatherAny(mem, rules, vars, x);
        MergeByItem(mem, Empty(vars), pieces, x);
      }
    }
  }

  // ---- the methods ----

  method BildResults(result: Results, items: seq<Piece>, readResults: seq<Answer>) returns (merged: Option<Results>)
    ensures merged == Merge(result, items, readResults)
  {
    var current := result;
    var next := 0;
    for i := 0 to |readResults|
      invariant next == Min(i, |items|)
      invariant Merge(result, items, readResults) == Merge(current, items[next..], readResults[i..])
    {
      if next < |items| {
        var piece := items[next];
        assert items[next..][1..] == items[next + 1..] && readResults[i..][1..] == readResults[i + 1..];
        next := next + 1;
        var answer := Absorb(Entry(current, piece.item), piece, readResults[i]);
        if answer.None? {
          return None;
        }
        current := current[piece.item := answer];
      }
    }
    merged := Some(current);
  }

  /** `vars.ToDictionary(x => x, x => null)`; None when an object occurs twice. */
  method ToDictionary(vars: seq<Item>) returns (result: Option<Results>)
    ensures result == if Distinct(vars) then Some(Empty(vars)) else None
  {
    var entries: Results := map[];
    for i := 0 to |vars|
      invariant Distinct(vars[..i]) && entries == Empty(vars[..i])
    {
      if vars[i] in entries {
        return None;
      }
      entries := entries[vars[i] := None];
    }
    assert vars[..|vars|] == vars;
    result := Some(entries);
  }

  lemma OneJob(mem: Memory, result: Results, items: seq<Piece>, rest: seq<Piece>)
    requires Requestable(items + rest)
    ensures Requestable(items) && Requestable(rest)
    ensures Merge(result, items + rest, Answers(mem, items + rest)) ==
            match Merge(result, items, Answers(mem, items))
            case None => None
            case Some(next) => Merge(next, rest, Answers(mem, rest))
  {
    assert forall p :: p in items || p in rest ==> p in items + rest;
    AnswersAppend(mem, items, rest);
    MergeAppends(result, items, rest, Answers(mem, items), Answers(mem, rest));
  }

  lemma NoJobs(mem: Memory, result: Results)
    ensures Requestable([]) && Merge(result, [], Answers(mem, [])) == Some(result)
  {}

  /** The first package from i on whose job is not answered. */
  function Stop(packages: seq<Package>, link: nat -> Link, i: nat): (n: nat)
    requires i <= |packages|
    ensures i <= n <= |packages|
    ensures forall j | i <= j < n :: link(j).Answered?
    ensures n < |packages| ==> !link(n).Answered?
    decreases |packages| - i
  {
    if i == |packages| || !link(i).Answered? then i else Stop(packages, link, i + 1)
  }

  lemma {:induction false} MergeStops(mem: Memory, result: Results, items: seq<Piece>, rest: seq<Piece>)
    requires Requestable(items + rest)
    ensures Requestable(items) && Requestable(rest)
    ensures Merge(result, items, Answers(mem, items)).None? ==> Merge(result, items + rest, Answers(mem, items + rest)).None?
  {
    OneJob(mem, result, items, rest);
  }

  lemma FlatPrefix(packages: seq<Package>, n: nat)
    requires n <= |packages|
    ensures Flat(packages) == Flat(packages[..n]) + Flat(packages[n..])
  {
    assert packages == packages[..n] + packages[n..];
    FlatAppends(packages[..n], packages[n..]);
  }

  lemma PrefixRequestable(packages: seq<Package>, n: nat)
    requires n <= |packages| && Requestable(Flat(packages))
    ensures Requestable(Flat(packages[..n]))
  {
    FlatPrefix(packages, n);
    assert forall p <- Flat(packages[..n]) :: p in Flat(packages);
  }

  /** One more package: its answers are merged into the result so far. */
  lemma OneMore(mem: Memory, result: Results, packages: seq<Package>, i: nat)
    requires i < |packages| && Requestable(Flat(packages))
    ensures Requestable(Flat(packages[..i])) && Requestable(Flat(packages[..i + 1])) && Requestable(packages[i])
    ensures Merge(result, Flat(packages[..i + 1]), Answers(mem, Flat(packages[..i + 1]))) ==
            match Merge(result, Flat(packages[..i]), Answers(mem, Flat(packages[..i])))
            case None => None
            case Some(next) => Merge(next, packages[i], Answers(mem, packages[i]))
  {
    hide Requestable, Merge, Answers;
    PrefixRequestable(packages, i);
    PrefixRequestable(packages, i + 1);
    assert packages[..i + 1] == packages[..i] + [packages[i]] && [packages[i]][1..] == [];
    FlatAppends(packages[..i], [packages[i]]);
    assert Flat([packages[i]]) == packages[i] + Flat([packages[i]][1..]) == packages[i];
    OneJob(mem, result, Flat(packages[..i]), packages[i]);
  }

  /** What is merged when the jobs before n are answered; None when gluing throws. */
  ghost function Glued(mem: Memory, result: Results, packages: seq<Package>, n: nat): Option<Results>
    requires n <= |packages| && Requestable(Flat(packages))
  {
    PrefixRequestable(packages, n);
    Merge(result, Flat(packages[..n]), Answers(mem, Flat(packages[..n])))
  }

  /** Runs the jobs of all packages one after the other until one is not answered or gluing throws. */
  method RunJobs(plc: SimulationPlcDataProvider, link: nat -> Link, initial: Results, packages: seq<ReadPackage>,
                 ghost expected: seq<Package>)
    returns (merged: Option<Results>, stop: nat)
    requires plc.Valid() && |packages| == |expected| && Requestable(Flat(expected))
    requires forall i | 0 <= i < |packages| :: packages[i].items == expected[i]
    ensures merged == Glued(plc.Contents(), initial, expected, Stop(expected, link, 0))
    ensures merged.Some? ==> stop == Stop(expected, link, 0)
  {
    hide Requestable, Merge, Answers, Flat, Stop;
    ghost var mem := plc.Contents();
    var result := initial;
    stop := 0;
    NoJobs(mem, result);
    FlatNone(expected);
    while stop < |packages| && link(stop).Answered?
      invariant 0 <= stop <= |packages| && plc.Contents() == mem
      invariant forall j | 0 <= j < stop :: link(j).Answered?
      invariant Glued(mem, initial, expected, stop) == Some(result)
    {
      OneMore(mem, initial, expected, stop);
      var items := packages[stop].items;
      var answers := AnswerPackage(plc, items);
      assert plc.Contents() == mem;
      var next := BildResults(result, items, answers);
      assert plc.Contents() == mem;
      stop := stop + 1;
      if next.None? {
        assert Glued(mem, initial, expected, stop).None?;
        StopsLater(expected, link, stop);
        GluedLater(mem, initial, expected, stop, Stop(expected, link, 0));
        return None, stop;
      }
      result := next.value;
    }
    StopAt(expected, link, stop);
    merged := Some(result);
  }

  lemma FlatNone(packages: seq<Package>)
    ensures Flat(packages[..0]) == []
  {}

  lemma StopAt(packages: seq<Package>, link: nat -> Link, n: nat)
    requires n <= |packages| && (forall j | 0 <= j < n :: link(j).Answered?) && (n < |packages| ==> !link(n).Answered?)
    ensures Stop(packages, link, 0) == n
  {
    var m := Stop(packages, link, 0);
  }

  lemma StopsLater(packages: seq<Package>, link: nat -> Link, n: nat)
    requires n <= |packages| && forall j | 0 <= j < n :: link(j).Answered?
    ensures n <= Stop(packages, link, 0)
  {
    var m := Stop(packages, link, 0);
  }

  /** Once gluing has thrown, further answers cannot repair it. */
  lemma GluedLater(mem: Memory, result: Results, packages: seq<Package>, i: nat, n: nat)
    requires i <= n <= |packages| && Requestable(Flat(packages)) && Glued(mem, result, packages, i).None?
    ensures Glued(mem, result, packages, n).None?
  {
    hide Requestable, Merge, Answers;
    PrefixRequestable(packages, n);
    assert packages[..n][..i] == packages[..i];
    FlatPrefix(packages[..n], i);
    MergeStops(mem, result, Flat(packages[..i]), Flat(packages[..n][i..]));
  }

  // ---- which answers make gluing throw ----

  /** The answer to this child has more bytes than the child has elements. */
  predicate Overflows(mem: Memory, p: Piece) {
    p.Part? && p.item.elementSize > 1 && Status(mem, p.ReadRequest()) == Success
  }

  lemma AbsorbThrows(mem: Memory, entry: Option<Answer>, p: Piece, max: u16)
    requires p.item.Readable() && p.ReadRequest().Readable() && max > 0 && p in Slices(p.item, max)
    requires p.item.count > max && entry.Some? ==> |entry.value.data| == p.item.count
    ensures var absorbed := Absorb(entry, p, Read(mem, p.ReadRequest()));
            && (absorbed.None? <==> Overflows(mem, p))
            && (absorbed.Some? && p.item.count > max ==> |absorbed.value.data| == p.item.count)
  {
    if p.item.count > max {
      SlicesFromTile(p.item, max, 0);
      Widens(p.length, p.item.elementSize);
    }
  }

  /** Merging throws exactly when one of the pieces is a readable child of an item with elements of several bytes. */
  lemma {:induction false} MergeThrows(mem: Memory, results: Results, pieces: seq<Piece>, max: u16)
    requires max > 0 && Requestable(pieces) && forall p <- pieces :: p.item.Readable() && p in Slices(p.item, max)
    requires forall x <- results :: x.count > max && results[x].Some? ==> |results[x].value.data| == x.count
    ensures Merge(results, pieces, Answers(mem, pieces)).None? <==> exists p <- pieces :: Overflows(mem, p)
    decreases |pieces|
  {
    hide Read, Slices, Absorb, Overflows, Item.Readable, Request.Readable, Piece.ReadRequest;
    if pieces != [] {
      var p, rest := pieces[0], pieces[1..];
      assert pieces == [p] + rest && p in pieces && forall q <- rest :: q in pieces;
      assert forall q <- pieces :: q == p || q in rest;
      assert Answers(mem, pieces)[1..] == Answers(mem, rest);
      AbsorbThrows(mem, Entry(results, p.item), p, max);
      var absorbed := Absorb(Entry(results, p.item), p, Read(mem, p.ReadRequest()));
      if absorbed.Some? {
        MergeThrows(mem, results[p.item := absorbed], rest, max);
      }
    }
  }

  lemma GluedThrows(mem: Memory, rules: Rules, vars: seq<Item>, n: nat)
    requires rules.kind.Reading? && (rules.pdu >= 24 || vars == []) && Distinct(vars) && forall x <- vars :: x.Readable()
    requires n <= |CreatePackages(rules, vars).0| && Requestable(Pieces(rules, vars))
    ensures Glued(mem, Empty(vars), CreatePackages(rules, vars).0, n).None? <==>
            exists p <- Flat(CreatePackages(rules, vars).0[..n]) :: Overflows(mem, p)
  {
    hide CreatePackages, Merge, Answers, Requestable, Overflows, Slices, Item.Readable;
    var packages := CreatePackages(rules, vars).0;
    AllPackable(rules, vars);
    PrefixRequestable(packages, n);
    FlatPrefix(packages, n);
    forall p | p in Flat(packages[..n]) ensures p.item in vars && p in Slices(p.item, MaxLength(rules)) {
      assert p in Pieces(rules, vars);
      PiecesAreSlices(rules, vars, p);
    }
    if Flat(packages[..n]) == [] {
      NoJobs(mem, Empty(vars));
    } else {
      assert vars != [] by { assert Flat(packages[..n])[0].item in vars; }
      MergeThrows(mem, Empty(vars), Flat(packages[..n]), MaxLength(rules));
    }
  }

  /** Reads a list of items; each way in which the call can end has its exact condition. */
  method ReadAsync(plc: SimulationPlcDataProvider, connected: bool, link: nat -> Link, pduSize: u16, vars: seq<Item>)
    returns (outcome: Outcome)
    requires plc.Valid() && forall x <- vars :: x.Readable()
    ensures outcome.NotConnected? <==> !connected
    ensures outcome.DuplicateItem? <==> connected && !Distinct(vars)
    ensures outcome.CouldNotAddPackage? <==> connected && Distinct(vars) && vars != [] && pduSize < 24
    ensures connected && Distinct(vars) && (vars == [] || pduSize >= 24) ==>
              var packages := CreatePackages(Rules(Reading, pduSize), vars).0;
              var n := Stop(packages, link, 0);
              && Requestable(Flat(packages))
              && (outcome.BufferTooShort? <==> exists p <- Flat(packages[..n]) :: Overflows(plc.Contents(), p))
              && (outcome.EmptyDictionary? <==> !outcome.BufferTooShort? && n < |packages| && link(n).Unsent?)
              && (outcome.TimedOut? <==> !outcome.BufferTooShort? && n < |packages| && link(n).Unanswered?)
              && (outcome.Done? <==> !outcome.BufferTooShort? && n == |packages|)
    ensures outcome.BufferTooShort? ==> exists x <- vars :: BufferTooSmall(plc.Contents(), Rules(Reading, pduSize), x)
    ensures connected && Distinct(vars) && pduSize >= 24 && (forall k :: link(k).Answered?) ==>
              (outcome.BufferTooShort? <==> exists x <- vars :: BufferTooSmall(plc.Contents(), Rules(Reading, pduSize), x))
    ensures outcome.Done? ==>
              && outcome.results.Keys == (set x <- vars)
              && forall x <- vars :: Matches(plc.Contents(), x, outcome.results[x])
  {
    hide Matches, BufferTooSmall, Merge, Answers, CreatePackages, Requestable, Stop, Flat, Overflows;
    var rules := Rules(Reading, pduSize);
    if !connected {
      return NotConnected;
    }
    var entries := ToDictionary(vars);
    if entries.None? {
      return DuplicateItem;
    }
    GeneratorSucceeds(rules, vars);
    var packages, failed := CreateReadPackages(pduSize, vars);
    if vars != [] {
      assert Packable(rules, vars[0]) <==> pduSize >= 24;
    }
    if failed {
      return CouldNotAddPackage;
    }
    AllRequestable(rules, vars);
    ghost var mem, expected := plc.Contents(), CreatePackages(rules, vars).0;
    var merged, stop := RunJobs(plc, link, entries.value, packages, expected);
    assert plc.Contents() == mem;
    GluedThrows(mem, rules, vars, Stop(expected, link, 0));
    ReadRefines(mem, rules, vars);
    assert expected[..|expected|] == expected;
    if merged.None? {
      GluedLater(mem, Empty(vars), expected, Stop(expected, link, 0), |expected|);
      return BufferTooShort;
    }
    if stop < |packages| {
      return if link(stop) == Unsent then EmptyDictionary else TimedOut;
    }
    outcome := Done(merged.value);
  }

  /** Reading 223 elements of two bytes with a PDU of 240 throws although all of them are there. */
  lemma BufferExample()
    ensures var block := BlockId(DB, 1);
            var mem: Memory := map[block := seq(446, _ => 0)];
            var x := Item(0, block, 0, 223, 2, false, []);
            var rules := Rules(Reading, 240);
            && Read(mem, Whole(x).ReadRequest()).code == Success
            && Requestable(Pieces(rules, [x]))
            && Merge(Empty([x]), Pieces(rules, [x]), Answers(mem, Pieces(rules, [x]))).None?
  {
    hide Pieces, Merge, Answers, Requestable;
    var block := BlockId(DB, 1);
    var mem: Memory := map[block := seq(446, _ => 0)];
    var x := Item(0, block, 0, 223, 2, false, []);
    assert x in [x];
    AllRequestable(Rules(Reading, 240), [x]);
    ReadRefines(mem, Rules(Reading, 240), [x]);
    assert BufferTooSmall(mem, Rules(Reading, 240), x);
  }

  /** One job: the items travel as requests, the answers come back in the same order. */
  method AnswerPackage(plc: SimulationPlcDataProvider, items: seq<Piece>) returns (answers: seq<Answer>)
    requires plc.Valid() && Requestable(items)
    ensures answers == Answers(plc.Contents(), items)
  {
    var requests := seq(|items|, i requires 0 <= i < |items| => items[i].ReadRequest());
    answers := plc.ReadAsync(requests);
    AnswersAt(plc.Contents(), items);
  }

  lemma {:induction false} AnswersAt(mem: Memory, pieces: seq<Piece>)
    requires Requestable(pieces)
    ensures forall i | 0 <= i < |pieces| :: Answers(mem, pieces)[i] == Read(mem, pieces[i].ReadRequest())
  {
    if pieces != [] {
      AnswersAt(mem, pieces[1..]);
    }
  }
}
