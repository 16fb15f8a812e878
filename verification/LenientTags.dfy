/** TryParseTag: what it accepts beyond ParseTag. */
module LenientTags {
  import opened Basics
  import opened Numbers
  import opened Tags
  import Plc

  /** Where the throwing parse succeeds, TryParseTag returns the same. */
  lemma {:induction false} ScanAgrees(input: string, i: nat, v: Variables)
    requires v.indexStart <= i <= |input| && Scan(input, i, v, true).Ok?
    ensures Scan(input, i, v, false) == Scan(input, i, v, true)
    decreases |input| - i
  {
    hide TryExtractData;
    if i < |input| {
      if !IsSeparator(input[i]) {
        ScanAgrees(input, i + 1, v);
      } else {
        ScanAgrees(input, i + 1, Parse(v, input[v.indexStart..i], i, true).value);
      }
    }
  }

  /** The fourth segment is not a number, or it is empty and further segments follow. */
  predicate BadNumber(rest: seq<string>) {
    rest != [] && (Number(rest[0]).None? || (rest[0] == "" && |rest| > 1))
  }

  /** A bad number and all that follows it are ignored, and the length is one. */
  function LenientTyped(t: string, area: Plc.PlcArea, db: u16, offset: int32, rest: seq<string>): Result<TagParserResult> {
    if BadNumber(rest) then TypedBy(t, area, db, offset, 1) else Typed(t, area, db, offset, rest)
  }

  function LenientLocated(area: Plc.PlcArea, db: u16, rest: seq<string>): Result<TagParserResult> {
    if |rest| < 2 || Number(rest[0]).None? then Throws(TagParse)
    else LenientTyped(rest[1], area, db, Number(rest[0]).value, rest[2..])
  }

  function LenientMeaning(segments: seq<string>): Result<TagParserResult>
    requires segments != []
  {
    match TryDetectArea(segments[0])
    case Throws(failure) => Throws(failure)
    case Ok(None) => Throws(TagParse)
    case Ok(Some((area, db))) => LenientLocated(area, db, segments[1..])
  }

  predicate Succeeds(r: Result<TagParserResult>) { r.Ok? && r.value.errorState == Success }

  /** The scan returns the meaning, and does not report success when there is none. */
  predicate Agrees(r: Result<TagParserResult>, meaning: Result<TagParserResult>) {
    if meaning.Ok? then r == meaning && Succeeds(r) else !Succeeds(r)
  }

  lemma {:induction false} SkipLenient(input: string, i: nat, v: Variables)
    requires v.indexStart <= i <= |input|
    ensures Scan(input, i, v, false) == Scan(input, NextSeparator(input, i), v, false)
    decreases |input| - i
  {
    hide Parse, Finish;
    if i < |input| && !IsSeparator(input[i]) {
      SkipLenient(input, i + 1, v);
    }
  }

  predicate HasSeparator(s: string) {
    exists c <- s :: IsSeparator(c)
  }

  lemma SeparatorSpoils(s: string)
    requires HasSeparator(s)
    ensures Number(s) == None && TryDetectArea(s) == Ok(None)
  {
    var k :| 0 <= k < |s| && IsSeparator(s[k]);
    if |s| > 2 {
      if k >= 2 {
        assert s[2..][k - 2] == s[k] && s[k] in s[2..];
        assert Number(s[2..]) == None;
      }
    }
  }

  lemma LongerHas(input: string, from: nat, i: nat, k: nat)
    requires from <= i <= k <= |input| && HasSeparator(input[from..i])
    ensures HasSeparator(input[from..k])
  {
    var j :| 0 <= j < i - from && IsSeparator(input[from..i][j]);
    assert input[from..k][j] == input[from..i][j];
  }

  /** Once the area or the offset has not been recognised, no later segment can repair it. */
  lemma {:induction false} Stuck(input: string, i: nat, v: Variables)
    requires v.indexStart <= i <= |input| && v.tagType == "" && (v.state.Area? || v.state.Offset?)
    requires HasSeparator(input[v.indexStart..i])
    ensures !Succeeds(Scan(input, i, v, false))
    decreases |input| - i
  {
    hide TryDetectArea, Number, TryDetectTypes, HasSeparator;
    SeparatorSpoils(input[v.indexStart..i]);
    if i < |input| {
      LongerHas(input, v.indexStart, i, i + 1);
      if IsSeparator(input[i]) {
        Stuck(input, i + 1, Parse(v, input[v.indexStart..i], i, false).value);
      } else {
        Stuck(input, i + 1, v);
      }
    } else {
      assert input[v.indexStart..] == input[v.indexStart..i];
    }
  }

  /** A segment that is no number blocks the state until the final validation. */
  lemma {:induction false} StuckNumber(input: string, i: nat, v: Variables)
    requires v.indexStart <= i <= |input| && v.state.NumberOfItems? && v.result.area.Some? && v.result.length == 0
    requires input[v.indexStart..i] != "" && Number(input[v.indexStart..i]).None?
    ensures Agrees(Scan(input, i, v, false), TypedBy(v.tagType, v.result.area.value, v.result.dbNumber, v.result.offset, 1))
    decreases |input| - i
  {
    hide TryDetectArea, Number, TryDetectTypes, ToUInt16;
    if i < |input| {
      StillNoNumber(input, v.indexStart, i);
      if IsSeparator(input[i]) {
        StuckNumber(input, i + 1, Parse(v, input[v.indexStart..i], i, false).value);
      } else {
        StuckNumber(input, i + 1, v);
      }
    } else {
      assert input[v.indexStart..] == input[v.indexStart..i];
    }
  }

  lemma StillNoNumber(input: string, from: nat, i: nat)
    requires from <= i < |input| && Number(input[from..i]).None?
    ensures Number(input[from..i + 1]).None?
  {
    var c :| c in input[from..i] && !IsDigit(c);
    assert input[from..i + 1] == input[from..i] + [input[i]];
  }

  /** A type that is not recognised stays unrecognised. */
  lemma {:induction false} StuckType(input: string, i: nat, v: Variables)
    requires v.indexStart <= i <= |input| && v.state.TypeValidation?
    requires v.tagType == "" || forall length: u16 :: TryDetectTypes(v.tagType, length, v.result.offset).None?
    ensures !Succeeds(Scan(input, i, v, false))
    decreases |input| - i
  {
    hide TryDetectArea, Number, TryDetectTypes, ToUInt16;
    if i < |input| {
      if IsSeparator(input[i]) {
        StuckType(input, i + 1, Parse(v, input[v.indexStart..i], i, false).value);
      } else {
        StuckType(input, i + 1, v);
      }
    }
  }

  lemma NoTypeAtAll(t: string, length: u16, offset: int32)
    requires t != "" && TryDetectTypes(t, length, offset).None?
    ensures forall other: u16 :: TryDetectTypes(t, other, offset).None?
  {}

  lemma LenientAfterNumber(input: string, i: nat, v: Variables)
    requires v.indexStart <= i <= |input| && v.state.TypeValidation? && v.result.area.Some?
    ensures var length := Max(v.result.length, 1);
            var once := TypedBy(v.tagType, v.result.area.value, v.result.dbNumber, v.result.offset, length);
            Agrees(Scan(input, i, v, false),
                   if once.Ok? then TypedBy(v.tagType, v.result.area.value, v.result.dbNumber, once.value.offset, length)
                   else once)
  {
    hide TryDetectArea, Number, TryDetectTypes, ToUInt16, Scan;
    var length := Max(v.result.length, 1);
    AfterNumber(input, i, v);
    if v.tagType != "" && TryDetectTypes(v.tagType, length, v.result.offset).Some? {
      SameTypeAgain(v.tagType, length, v.result.offset, TryDetectTypes(v.tagType, length, v.result.offset).value.2);
      ScanAgrees(input, i, v);
    } else {
      if v.tagType != "" {
        NoTypeAtAll(v.tagType, length, v.result.offset);
      }
      StuckType(input, i, v);
    }
  }

  lemma LenientAtNumber(input: string, v: Variables)
    requires v.indexStart <= |input| && v.state.NumberOfItems? && v.result.area.Some? && v.result.length == 0
    ensures Agrees(Scan(input, v.indexStart, v, false),
                   LenientTyped(v.tagType, v.result.area.value, v.result.dbNumber, v.result.offset,
                                Segments(input, v.indexStart)))
  {
    hide TryDetectTypes, TryDetectArea, Number, TypedBy, LengthOf, Typed, Parse, Finish, Scan, NextSeparator, Segments;
    SegmentsAt(input, v.indexStart);
    SkipLenient(input, v.indexStart, v);
    var j := NextSeparator(input, v.indexStart);
    if j == |input| {
      LenientLastNumber(input, v);
    } else {
      LenientMoreNumber(input, j, v);
    }
  }

  lemma LenientLastNumber(input: string, v: Variables)
    requires v.indexStart <= |input| && v.state.NumberOfItems? && v.result.area.Some? && v.result.length == 0
    ensures Agrees(Scan(input, |input|, v, false),
                   LenientTyped(v.tagType, v.result.area.value, v.result.dbNumber, v.result.offset, [input[v.indexStart..]]))
  {
    hide TryDetectTypes, TryDetectArea, Number, NextSeparator, TypedBy, Typed, Finish, Parse, Agrees;
    EmptyIsZero();
    if Number(input[v.indexStart..]).None? {
      LastBad(input, v);
    } else {
      LastGood(input, v);
    }
  }

  lemma LastBad(input: string, v: Variables)
    requires v.indexStart <= |input| && v.state.NumberOfItems? && v.result.area.Some? && v.result.length == 0
    requires Number(input[v.indexStart..]).None? && input[v.indexStart..] != ""
    ensures Agrees(Finish(input, v, false), TypedBy(v.tagType, v.result.area.value, v.result.dbNumber, v.result.offset, 1))
  {
    hide TryDetectTypes, TryDetectArea, Number, NextSeparator, Scan, ToUInt16;
  }

  lemma LastGood(input: string, v: Variables)
    requires v.indexStart <= |input| && v.state.NumberOfItems? && v.result.area.Some? && v.result.length == 0
    requires Number(input[v.indexStart..]).Some?
    ensures Agrees(Finish(input, v, false),
                   Typed(v.tagType, v.result.area.value, v.result.dbNumber, v.result.offset, [input[v.indexStart..]]))
  {
    hide TryDetectTypes, TryDetectArea, Number, NextSeparator, Scan, ToUInt16;
  }

  lemma EmptyIsZero()
    ensures Number("") == Some(0)
  {}

  lemma LenientMoreNumber(input: string, j: nat, v: Variables)
    requires v.indexStart <= j < |input| && IsSeparator(input[j]) && v.state.NumberOfItems?
    requires v.result.area.Some? && v.result.length == 0
    ensures Agrees(Scan(input, j, v, false),
                   LenientTyped(v.tagType, v.result.area.value, v.result.dbNumber, v.result.offset,
                                [input[v.indexStart..j]] + Segments(input, j + 1)))
  {
    hide TryDetectTypes, TryDetectArea, Number, NextSeparator, TypedBy, Finish, Agrees;
    var data := input[v.indexStart..j];
    if data == "" {
      assert input[j..j + 1] == [input[j]];
      SeparatorSpoils(input[j..j + 1]) by { assert input[j] in input[j..j + 1]; }
      StuckNumber(input, j + 1, v);
    } else if Number(data).None? {
      StillNoNumber(input, v.indexStart, j);
      var next := Parse(v, data, j, false).value;
      StuckNumber(input, j + 1, next);
    } else if ToUInt16(Number(data).value).Ok? {
      LenientAfterNumber(input, j + 1, Parse(v, data, j, false).value);
    } else {
      Overflows(input, j, v);
    }
  }

  lemma Overflows(input: string, j: nat, v: Variables)
    requires v.indexStart < j < |input| && IsSeparator(input[j]) && v.state.NumberOfItems? && v.result.area.Some?
    requires Number(input[v.indexStart..j]).Some? && ToUInt16(Number(input[v.indexStart..j]).value).Throws?
    ensures Agrees(Scan(input, j, v, false),
                   LenientTyped(v.tagType, v.result.area.value, v.result.dbNumber, v.result.offset,
                                [input[v.indexStart..j]] + Segments(input, j + 1)))
  {
    hide TryDetectTypes, TryDetectArea, Number, NextSeparator, TypedBy, Finish;
    assert input[v.indexStart..j] != "";
  }

  lemma LenientAtType(input: string, v: Variables)
    requires v.indexStart <= |input| && v.state.Type? && v.result.area.Some? && v.result.length == 0
    ensures var rest := Segments(input, v.indexStart);
            Agrees(Scan(input, v.indexStart, v, false),
                   LenientTyped(rest[0], v.result.area.value, v.result.dbNumber, v.result.offset, rest[1..]))
  {
    hide TryDetectTypes, TryDetectArea, Number, ToUInt16, Finish, Parse, Scan, NextSeparator, Segments, LenientTyped, Agrees;
    SegmentsAt(input, v.indexStart);
    SkipLenient(input, v.indexStart, v);
    var j := NextSeparator(input, v.indexStart);
    if j == |input| {
      assert Segments(input, v.indexStart)[1..] == [];
      LenientLastType(input, v);
    } else {
      LenientMoreType(input, j, v);
      assert Segments(input, v.indexStart)[1..] == Segments(input, j + 1);
    }
  }

  lemma LenientLastType(input: string, v: Variables)
    requires v.indexStart <= |input| && v.state.Type? && v.result.area.Some? && v.result.length == 0
    ensures Agrees(Scan(input, |input|, v, false),
                   LenientTyped(input[v.indexStart..], v.result.area.value, v.result.dbNumber, v.result.offset, []))
  {
    hide TryDetectTypes, TryDetectArea, Number, NextSeparator;
  }

  lemma LenientMoreType(input: string, j: nat, v: Variables)
    requires v.indexStart <= j < |input| && IsSeparator(input[j]) && v.state.Type?
    requires v.result.area.Some? && v.result.length == 0
    ensures Agrees(Scan(input, j, v, false),
                   LenientTyped(input[v.indexStart..j], v.result.area.value, v.result.dbNumber, v.result.offset,
                                Segments(input, j + 1)))
  {
    hide TryDetectTypes, TryDetectArea, Number, ToUInt16, LenientTyped, Finish, NextSeparator, Segments, Agrees;
    LenientAtNumber(input, Parse(v, input[v.indexStart..j], j, false).value);
  }

  lemma LenientAtOffset(input: string, v: Variables)
    requires v.indexStart <= |input| && v.state.Offset? && v.result.area.Some? && v.result.length == 0 && v.tagType == ""
    ensures Agrees(Scan(input, v.indexStart, v, false),
                   LenientLocated(v.result.area.value, v.result.dbNumber, Segments(input, v.indexStart)))
  {
    hide TryDetectTypes, TryDetectArea, Number, ToUInt16, Finish, Parse, Scan, NextSeparator, Segments, LenientLocated, Agrees;
    SegmentsAt(input, v.indexStart);
    SkipLenient(input, v.indexStart, v);
    var j := NextSeparator(input, v.indexStart);
    if j == |input| {
      LenientLastOffset(input, v);
    } else {
      LenientMoreOffset(input, j, v);
    }
  }

  lemma LenientLastOffset(input: string, v: Variables)
    requires v.indexStart <= |input| && v.state.Offset? && v.result.area.Some? && v.result.length == 0 && v.tagType == ""
    ensures Agrees(Scan(input, |input|, v, false),
                   LenientLocated(v.result.area.value, v.result.dbNumber, [input[v.indexStart..]]))
  {
    hide Number, Finish, Parse;
    NoTypeFails(input, v);
  }

  /** Without a type the final validation fails. */
  lemma NoTypeFails(input: string, v: Variables)
    requires v.indexStart <= |input| && v.state.Offset? && v.tagType == ""
    ensures !Succeeds(Finish(input, v, false))
  {
    hide Number, TryDetectTypes, TryDetectArea, Scan, ToUInt16;
  }

  lemma LenientMoreOffset(input: string, j: nat, v: Variables)
    requires v.indexStart <= j < |input| && IsSeparator(input[j]) && v.state.Offset?
    requires v.result.area.Some? && v.result.length == 0 && v.tagType == ""
    ensures Agrees(Scan(input, j, v, false),
                   LenientLocated(v.result.area.value, v.result.dbNumber, [input[v.indexStart..j]] + Segments(input, j + 1)))
  {
    hide TryDetectTypes, TryDetectArea, Number, ToUInt16, LenientTyped, Finish, NextSeparator, Segments, Agrees;
    var data, rest := input[v.indexStart..j], Segments(input, j + 1);
    var next := Parse(v, data, j, false).value;
    assert ([data] + rest)[2..] == rest[1..];
    if Number(data).None? {
      SeparatorInside(input, v.indexStart, j);
      Stuck(input, j + 1, next);
      NotLocated(v.result.area.value, v.result.dbNumber, data, rest, Scan(input, j, v, false));
    } else {
      LenientAtType(input, next);
    }
  }

  lemma NotLocated(area: Plc.PlcArea, db: u16, data: string, rest: seq<string>, r: Result<TagParserResult>)
    requires Number(data).None? && !Succeeds(r)
    ensures Agrees(r, LenientLocated(area, db, [data] + rest))
  {}

  lemma SeparatorInside(input: string, from: nat, j: nat)
    requires from <= j < |input| && IsSeparator(input[j])
    ensures HasSeparator(input[from..j + 1])
  {
    assert input[from..j + 1][j - from] == input[j];
  }

  /**
   * TryParseTag succeeds exactly on what ParseTag accepts and on tags whose first three segments are a tag and whose
   * fourth one is no number; then it reads the first three.
   */
  lemma TryParseTagMeaning(tag: string)
    ensures Agrees(Parsed(tag, false), LenientMeaning(Segments(ToLower(Trim(tag)), 0)))
  {
    hide TryDetectTypes, TryDetectArea, Number, ToUInt16, LenientLocated, Agrees, Finish, NextSeparator;
    var input := ToLower(Trim(tag));
    SkipLenient(input, 0, START);
    SegmentsAt(input, 0);
    var j := NextSeparator(input, 0);
    if j == |input| {
      LenientLastArea(input);
    } else {
      LenientMoreArea(input, j);
    }
  }

  lemma LenientLastArea(input: string)
    ensures Agrees(Scan(input, |input|, START, false), LenientMeaning([input[0..]]))
  {
    hide TryDetectTypes, TryDetectArea, Number, NextSeparator;
  }

  lemma LenientMoreArea(input: string, j: nat)
    requires j < |input| && IsSeparator(input[j])
    ensures Agrees(Scan(input, j, START, false), LenientMeaning([input[0..j]] + Segments(input, j + 1)))
  {
    hide TryDetectTypes, TryDetectArea, Number, ToUInt16, LenientLocated, Finish, NextSeparator, Segments;
    var first, segments := Parse(START, input[0..j], j, false), [input[0..j]] + Segments(input, j + 1);
    assert segments[1..] == Segments(input, j + 1);
    if first.Ok? && first.value.state.Area? {
      SeparatorInside(input, 0, j);
      Stuck(input, j + 1, first.value);
    } else if first.Ok? {
      LenientAtOffset(input, first.value);
    }
  }

  /** Whatever is wrong with a tag, TryParseTag names the validation of the type as the state in which it failed. */
  lemma {:induction false} FailedState(input: string, i: nat, v: Variables)
    requires v.indexStart <= i <= |input| && Scan(input, i, v, false).Ok?
    ensures Scan(input, i, v, false).value.errorState in {Success, TypeValidation}
    decreases |input| - i
  {
    hide TryDetectArea, TryDetectTypes, Number, ToUInt16;
    if i < |input| {
      if IsSeparator(input[i]) {
        FailedState(input, i + 1, Parse(v, input[v.indexStart..i], i, false).value);
      } else {
        FailedState(input, i + 1, v);
      }
    }
  }

  lemma TryParseTagFails(tag: string)
    requires Parsed(tag, false).Ok? && !Succeeds(Parsed(tag, false))
    ensures Parsed(tag, false).value.errorState == TypeValidation
  {
    hide Scan;
    FailedState(ToLower(Trim(tag)), 0, START);
  }

  /** Where TryParseTag reports success although ParseTag throws. */
  lemma OnlyTryParseTag(tag: string)
    ensures var segments := Segments(ToLower(Trim(tag)), 0);
            Succeeds(Parsed(tag, false)) && Parsed(tag, true).Throws? <==>
            |segments| >= 4 && BadNumber(segments[3..]) && Meaning(segments[..3]).Ok?
    ensures Parsed(tag, true).Ok? ==> Parsed(tag, false) == Parsed(tag, true)
  {
    hide TryDetectTypes, TryDetectArea, Number, ToUInt16, Scan;
    var segments := Segments(ToLower(Trim(tag)), 0);
    EmptyIsZero();
    ParseTagMeaning(tag);
    TryParseTagMeaning(tag);
    if |segments| >= 4 {
      assert segments[1..][2..] == segments[3..] && segments[..3][1..][2..] == [];
    } else if |segments| == 3 {
      assert segments[1..][2..] == [];
    }
    if Parsed(tag, true).Ok? {
      ScanAgrees(ToLower(Trim(tag)), 0, START);
    }
  }
}
