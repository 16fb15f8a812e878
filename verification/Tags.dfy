/** Tags: printing a request as text and reading it back through the separator-driven state machine. */
module Tags {
  import opened Basics
  import opened Numbers
  import Plc

  datatype TagParserState = Nothing | Area | Offset | Type | NumberOfItems | TypeValidation | Success

  datatype ScalarType = Byte | Char | String | UShort | ULong | Short | UInt | Int | Float | Bool

  datatype ClrType = One(element: ScalarType) | Many(element: ScalarType)

  /** None stands for the default of a new result. */
  datatype TagParserResult = TagParserResult(
    area: Option<Plc.PlcArea>,
    dbNumber: u16,
    offset: int32,
    length: u16,
    varType: Option<ScalarType>,
    resultType: Option<ClrType>,
    errorState: TagParserState
  )

  /** The exceptions that leave the parser. */
  datatype Failure = TagParse | Overflow | IndexOutOfRange

  datatype Result<+T> = Ok(value: T) | Throws(failure: Failure)

  /** The variables that the parsing functions share by reference; the empty `tagType` also stands for null. */
  datatype Variables = Variables(result: TagParserResult, indexStart: nat, state: TagParserState, tagType: string)

  const START := Variables(TagParserResult(None, 0, 0, 0, None, None, Nothing), 0, Area, "")

  // ---- areas ----

  /** `Convert.ToUInt16` throws outside its range. */
  function ToUInt16(x: int32): Result<u16> { if 0 <= x < 0x1_0000 then Ok(x) else Throws(Overflow) }

  function SpanToUShort(data: string): Result<u16> {
    match Number(data)
    case None => Ok(0)
    case Some(x) => ToUInt16(x)
  }

  function OneLetterArea(c: char): Option<Plc.PlcArea> {
    if c in "ieIE" then Some(Plc.IB)
    else if c in "mM" then Some(Plc.FB)
    else if c in "qaQA" then Some(Plc.QB)
    else if c in "tT" then Some(Plc.TM)
    else if c in "czCZ" then Some(Plc.CT)
    else None
  }

  function TwoLetterArea(c: char, d: char): Option<Plc.PlcArea> {
    if c in "iI" && d in "bB" then Some(Plc.IB)
    else if c in "fF" && d in "bB" then Some(Plc.FB)
    else if c in "qQ" && d in "bB" then Some(Plc.QB)
    else if c in "tT" && d in "mM" then Some(Plc.TM)
    else if c in "cC" && d in "tT" then Some(Plc.CT)
    else None
  }

  function TryDetectArea(area: string): Result<Option<(Plc.PlcArea, u16)>> {
    if area == "" then Throws(IndexOutOfRange)
    else if |area| == 1 then
      match OneLetterArea(area[0]) { case None => Ok(None) case Some(a) => Ok(Some((a, 0))) }
    else if |area| == 2 then
      match TwoLetterArea(area[0], area[1]) { case None => Ok(None) case Some(a) => Ok(Some((a, 0))) }
    else if area[0] in "dD" && area[1] in "bB" then
      match SpanToUShort(area[2..])
      case Throws(failure) => Throws(failure)
      case Ok(db) => if db <= 0 then Ok(None) else Ok(Some((Plc.DB, db)))
    else Ok(None)
  }

  // ---- types ----

  function SpanToInt(data: string): int32 {
    match Number(data)
    case None => 0
    case Some(x) => x
  }

  function Sized(t: ScalarType, length: u16): ClrType { if length > 1 then Many(t) else One(t) }

  /** The element type, the result type and the offset, which becomes a bit offset for bits. */
  function TryDetectTypes(t: string, length: u16, offset: int32): Option<(ScalarType, ClrType, int32)>
    requires t != ""
  {
    if t[0] == 'b' then Some((Byte, Sized(Byte, length), offset))
    else if t[0] == 'c' then Some((Char, Sized(Char, length), offset))
    else if t[0] == 'w' then if |t| > 1 then None else Some((UShort, Sized(UShort, length), offset))
    else if t[0] == 'l' then if |t| > 1 && t[1] == 'w' then Some((ULong, Sized(ULong, length), offset)) else None
    else if t[0] == 'i' then Some((Short, Sized(Short, length), offset))
    else if t[0] == 'd' && |t| > 1 && t[1] == 'w' then Some((UInt, Sized(UInt, length), offset))
    else if t[0] == 'd' && |t| > 1 && t[1] == 'i' then Some((Int, Sized(Int, length), offset))
    else if t[0] == 'r' then Some((Float, Sized(Float, length), offset))
    else if t[0] == 's' then if |t| > 1 && t[1] == 'i' then None else Some((String, One(String), offset))
    else if t[0] == 'x' && |t| > 1 then
      Some((Bool, Sized(Bool, length), Wrap32(Wrap32(offset * 8) + SpanToInt(t[1..]))))
    else None
  }

  // ---- the state machine ----

  /** One call of TryExtractData: whether it succeeds, and the variables after it. */
  function TryExtractData(v: Variables, input: string, i: int): (r: Result<(bool, Variables)>)
    requires i >= -1
    ensures r.Ok? ==> r.value.1.indexStart == v.indexStart || r.value.1.indexStart == i + 1
  {
    match v.state
    case Area =>
      (match TryDetectArea(input)
       case Throws(failure) => Throws(failure)
       case Ok(None) => Ok((false, v))
       case Ok(Some((area, db))) =>
         Ok((true, v.(result := v.result.(area := Some(area), dbNumber := db), indexStart := i + 1, state := Offset))))
    case Offset =>
      (match Number(input)
       case None => Ok((false, v))
       case Some(offset) =>
         Ok((true, v.(result := v.result.(offset := offset), indexStart := i + 1, state := Type))))
    case Type => Ok((true, v.(tagType := input, state := NumberOfItems, indexStart := i + 1)))
    case NumberOfItems =>
      if input == "" then Ok((true, v))
      else
        (match Number(input)
         case None => Ok((false, v))
         case Some(x) =>
           match ToUInt16(x)
           case Throws(failure) => Throws(failure)
           case Ok(length) => Ok((true, v.(result := v.result.(length := length), state := TypeValidation))))
    case TypeValidation =>
      var length: u16 := if v.result.length <= 0 then 1 else v.result.length;
      var sized := v.(result := v.result.(length := length));
      if v.tagType == "" then Ok((false, sized))
      else
        (match TryDetectTypes(v.tagType, length, v.result.offset)
         case None => Ok((false, sized))
         case Some((varType, resultType, offset)) =>
           var typed := sized.result.(offset := offset, varType := Some(varType), resultType := Some(resultType));
           Ok((true, Variables(typed, i + 1, Success, v.tagType))))
    case Success => Ok((true, v))
    case Nothing => Ok((false, v))
  }

  function Parse(v: Variables, data: string, i: int, throwException: bool): (r: Result<Variables>)
    requires i >= -1
    ensures r.Ok? ==> r.value.indexStart == v.indexStart || r.value.indexStart == i + 1
  {
    match TryExtractData(v, data, i)
    case Throws(failure) => Throws(failure)
    case Ok((true, next)) => Ok(next)
    case Ok((false, next)) =>
      if throwException then Throws(TagParse) else Ok(next.(result := next.result.(errorState := next.state)))
  }

  predicate IsSeparator(c: char) { c == '.' || c == ',' }

  /** The rest of the parse, from character i on. */
  function Scan(input: string, i: nat, v: Variables, throwException: bool): Result<TagParserResult>
    requires v.indexStart <= i <= |input|
    decreases |input| - i
  {
    if i == |input| then Finish(input, v, throwException)
    else if !IsSeparator(input[i]) then Scan(input, i + 1, v, throwException)
    else
      match Parse(v, input[v.indexStart..i], i, throwException)
      case Throws(failure) => Throws(failure)
      case Ok(next) => Scan(input, i + 1, next, throwException)
  }

  /** The last segment and the final validation of the type, which starts whatever state was reached. */
  function Finish(input: string, v: Variables, throwException: bool): Result<TagParserResult>
    requires v.indexStart <= |input|
  {
    match Parse(v, input[v.indexStart..], |input| - 1, throwException)
    case Throws(failure) => Throws(failure)
    case Ok(next) =>
      match Parse(next.(state := TypeValidation), input, |input| - 1, throwException)
      case Throws(failure) => Throws(failure)
      case Ok(last) => Ok(if last.state.Success? then last.result.(errorState := Success) else last.result)
  }

  // ---- trimming and lower case ----

  predicate IsWhiteSpace(c: char) {
    var n := c as int;
    || 0x09 <= n <= 0x0d || n == 0x20 || n == 0x85 || n == 0xa0 || n == 0x1680 || 0x2000 <= n <= 0x200a
    || n == 0x2028 || n == 0x2029 || n == 0x202f || n == 0x205f || n == 0x3000
  }

  function Trim(s: string): string {
    if s == [] then []
    else if IsWhiteSpace(s[0]) then Trim(s[1..])
    else if IsWhiteSpace(s[|s| - 1]) then Trim(s[..|s| - 1])
    else s
  }

  function LowerChar(c: char): char {
    if 'A' <= c <= 'Z' then (c as int + 32) as char else c
  }

  function ToLower(s: string): (r: string)
    ensures |r| == |s| && forall k | 0 <= k < |s| :: r[k] == LowerChar(s[k])
  {
    seq(|s|, k requires 0 <= k < |s| => LowerChar(s[k]))
  }

  /** What ParseTag returns or throws; TryParseTag is the case without the exception for a tag that is malformed. */
  function Parsed(tag: string, throwException: bool): Result<TagParserResult> {
    Scan(ToLower(Trim(tag)), 0, START, throwException)
  }

  method ParseTag(tag: string, throwException: bool) returns (r: Result<TagParserResult>)
    ensures r == Parsed(tag, throwException)
  {
    var input := ToLower(Trim(tag));
    var v := START;
    var i := 0;
    while i < |input|
      invariant v.indexStart <= i <= |input|
      invariant Scan(input, i, v, throwException) == Parsed(tag, throwException)
    {
      if input[i] != '.' && input[i] != ',' {
        i := i + 1;
        continue;
      }
      var step := Parse(v, input[v.indexStart..i], i, throwException);
      if step.Throws? {
        return Throws(step.failure);
      }
      v := step.value;
      i := i + 1;
    }
    var last := Parse(v, input[v.indexStart..], |input| - 1, throwException);
    if last.Throws? {
      return Throws(last.failure);
    }
    v := last.value.(state := TypeValidation);
    var validated := Parse(v, input, |input| - 1, throwException);
    if validated.Throws? {
      return Throws(validated.failure);
    }
    v := validated.value;
    if v.state == Success {
      v := v.(result := v.result.(errorState := Success));
    }
    r := Ok(v.result);
  }

  // ---- what a tag means, segment by segment ----

  function NextSeparator(input: string, i: nat): (j: nat)
    requires i <= |input|
    ensures i <= j <= |input| && (j < |input| ==> IsSeparator(input[j]))
    ensures forall k | i <= k < j :: !IsSeparator(input[k])
    decreases |input| - i
  {
    if i == |input| || IsSeparator(input[i]) then i else NextSeparator(input, i + 1)
  }

  function Segments(input: string, start: nat): (r: seq<string>)
    requires start <= |input|
    ensures r != []
    decreases |input| - start
  {
    var j := NextSeparator(input, start);
    if j == |input| then [input[start..]] else [input[start..j]] + Segments(input, j + 1)
  }

  /** The segments from the fourth on: the length may be left out or empty, but then nothing may follow it. */
  function LengthOf(rest: seq<string>): Result<u16> {
    if rest == [] || rest == [""] then Ok(1)
    else if rest[0] == "" then Throws(TagParse)
    else
      match Number(rest[0])
      case None => Throws(TagParse)
      case Some(x) => match ToUInt16(x) { case Throws(failure) => Throws(failure) case Ok(n) => Ok(Max(n, 1)) }
  }

  function TypedBy(t: string, area: Plc.PlcArea, db: u16, offset: int32, length: u16): Result<TagParserResult> {
    if t == "" then Throws(TagParse)
    else
      match TryDetectTypes(t, length, offset)
      case None => Throws(TagParse)
      case Some((varType, resultType, o)) =>
        Ok(TagParserResult(Some(area), db, o, length, Some(varType), Some(resultType), Success))
  }

  /** From the fifth segment on the type is applied a second time. */
  function Typed(t: string, area: Plc.PlcArea, db: u16, offset: int32, rest: seq<string>): Result<TagParserResult> {
    match LengthOf(rest)
    case Throws(failure) => Throws(failure)
    case Ok(length) =>
      match TypedBy(t, area, db, offset, length)
      case Throws(failure) => Throws(failure)
      case Ok(once) => if |rest| <= 1 then Ok(once) else TypedBy(t, area, db, once.offset, length)
  }

  /** The segments from the second on: offset, type, length. */
  function Located(area: Plc.PlcArea, db: u16, rest: seq<string>): Result<TagParserResult> {
    if rest == [] || Number(rest[0]).None? then Throws(TagParse)
    else if |rest| == 1 then Typed("", area, db, Number(rest[0]).value, [])
    else Typed(rest[1], area, db, Number(rest[0]).value, rest[2..])
  }

  function Meaning(segments: seq<string>): Result<TagParserResult>
    requires segments != []
  {
    match TryDetectArea(segments[0])
    case Throws(failure) => Throws(failure)
    case Ok(None) => Throws(TagParse)
    case Ok(Some((area, db))) => Located(area, db, segments[1..])
  }

  lemma {:induction false} Skip(input: string, i: nat, v: Variables)
    requires v.indexStart <= i <= |input|
    ensures Scan(input, i, v, true) == Scan(input, NextSeparator(input, i), v, true)
    decreases |input| - i
  {
    hide Parse, Finish;
    if i < |input| && !IsSeparator(input[i]) {
      Skip(input, i + 1, v);
    }
  }

  lemma SegmentsAt(input: string, start: nat)
    requires start <= |input|
    ensures var j := NextSeparator(input, start);
            Segments(input, start) == if j == |input| then [input[start..]] else [input[start..j]] + Segments(input, j + 1)
  {
    hide NextSeparator;
  }

  lemma ScanEnds(input: string, v: Variables)
    requires v.indexStart <= |input|
    ensures Scan(input, |input|, v, true) == Finish(input, v, true)
  {
    hide Parse, Finish;
  }

  /** The state Success is left only by the final validation, which applies the type once more. */
  lemma {:induction false} AfterSuccess(input: string, i: nat, v: Variables)
    requires v.indexStart <= i <= |input| && v.state.Success? && v.result.area.Some? && v.result.length > 0
    requires v.tagType != "" && TryDetectTypes(v.tagType, v.result.length, v.result.offset).Some?
    ensures Scan(input, i, v, true) ==
            TypedBy(v.tagType, v.result.area.value, v.result.dbNumber, v.result.offset, v.result.length)
    decreases |input| - i
  {
    hide TryDetectTypes, TryDetectArea, Number, ToUInt16;
    if i < |input| {
      AfterSuccess(input, i + 1, v);
    }
  }

  lemma SameTypeAgain(t: string, length: u16, offset: int32, other: int32)
    requires t != "" && TryDetectTypes(t, length, offset).Some?
    ensures TryDetectTypes(t, length, other).Some?
    ensures TryDetectTypes(t, length, other).value.0 == TryDetectTypes(t, length, offset).value.0
    ensures TryDetectTypes(t, length, other).value.1 == TryDetectTypes(t, length, offset).value.1
  {}

  /** From the fifth segment on. */
  lemma AfterNumber(input: string, i: nat, v: Variables)
    requires v.indexStart <= i <= |input| && v.state.TypeValidation? && v.result.area.Some?
    ensures Scan(input, i, v, true) ==
            var length := Max(v.result.length, 1);
            match TypedBy(v.tagType, v.result.area.value, v.result.dbNumber, v.result.offset, length)
            case Throws(failure) => Throws(failure)
            case Ok(once) => TypedBy(v.tagType, v.result.area.value, v.result.dbNumber, once.offset, length)
  {
    hide TryDetectTypes, TryDetectArea, Number, ToUInt16;
    Skip(input, i, v);
    var j := NextSeparator(input, i);
    var length := Max(v.result.length, 1);
    if v.tagType != "" && TryDetectTypes(v.tagType, length, v.result.offset).Some? {
      var o := TryDetectTypes(v.tagType, length, v.result.offset).value.2;
      SameTypeAgain(v.tagType, length, v.result.offset, o);
      if j < |input| {
        AfterSuccess(input, j + 1, Parse(v, input[v.indexStart..j], j, true).value);
      }
    }
  }

  lemma AtNumber(input: string, v: Variables)
    requires v.indexStart <= |input| && v.state.NumberOfItems? && v.result.area.Some? && v.result.length == 0
    ensures Scan(input, v.indexStart, v, true) ==
            Typed(v.tagType, v.result.area.value, v.result.dbNumber, v.result.offset, Segments(input, v.indexStart))
  {
    hide TryDetectTypes, TryDetectArea, Number, TypedBy, LengthOf, Typed, Parse, Finish, Scan, NextSeparator, Segments;
    SegmentsAt(input, v.indexStart);
    Skip(input, v.indexStart, v);
    var j := NextSeparator(input, v.indexStart);
    if j == |input| {
      ScanEnds(input, v);
      LastNumber(input, v);
    } else if input[v.indexStart..j] == "" {
      EmptyNumberIsStuck(input, j, v);
      EmptyNumberMeans(v.tagType, v.result.area.value, v.result.dbNumber, v.result.offset, Segments(input, j + 1));
    } else {
      MoreNumber(input, j, v);
    }
  }

  lemma EmptyNumberMeans(t: string, area: Plc.PlcArea, db: u16, offset: int32, rest: seq<string>)
    requires rest != []
    ensures Typed(t, area, db, offset, [""] + rest) == Throws(TagParse)
  {
    assert [""] + rest != [""] by { assert |[""] + rest| > 1; }
  }

  lemma LastNumber(input: string, v: Variables)
    requires v.indexStart <= |input| && v.state.NumberOfItems? && v.result.area.Some? && v.result.length == 0
    ensures Finish(input, v, true) ==
            Typed(v.tagType, v.result.area.value, v.result.dbNumber, v.result.offset, [input[v.indexStart..]])
  {
    hide TryDetectTypes, TryDetectArea, Number, NextSeparator, Scan;
  }

  lemma MoreNumber(input: string, j: nat, v: Variables)
    requires v.indexStart < j < |input| && IsSeparator(input[j]) && v.state.NumberOfItems?
    requires v.result.area.Some? && v.result.length == 0
    ensures Scan(input, j, v, true) ==
            Typed(v.tagType, v.result.area.value, v.result.dbNumber, v.result.offset,
                  [input[v.indexStart..j]] + Segments(input, j + 1))
  {
    hide TryDetectTypes, TryDetectArea, Number, NextSeparator, TypedBy, Finish;
    var data := input[v.indexStart..j];
    assert data != "";
    if Number(data).Some? && ToUInt16(Number(data).value).Ok? {
      AfterNumber(input, j + 1, Parse(v, data, j, true).value);
    }
  }

  /** After an empty fourth segment its separator becomes part of what is read as the number. */
  lemma EmptyNumberIsStuck(input: string, j: nat, v: Variables)
    requires v.indexStart == j < |input| && IsSeparator(input[j]) && v.state.NumberOfItems?
    ensures Scan(input, j, v, true) == Throws(TagParse)
  {
    hide TryDetectTypes, TryDetectArea;
    assert input[j..j] == "";
    Skip(input, j + 1, v);
    var k := NextSeparator(input, j + 1);
    assert input[j..k][0] in input[j..k];
    assert Number(input[j..k]) == None;
  }

  lemma AtType(input: string, v: Variables)
    requires v.indexStart <= |input| && v.state.Type? && v.result.area.Some? && v.result.length == 0
    ensures var rest := Segments(input, v.indexStart);
            Scan(input, v.indexStart, v, true) ==
            Typed(rest[0], v.result.area.value, v.result.dbNumber, v.result.offset, rest[1..])
  {
    hide TryDetectTypes, TryDetectArea, Number, ToUInt16, Typed, Finish, Parse, Scan, NextSeparator, Segments;
    SegmentsAt(input, v.indexStart);
    Skip(input, v.indexStart, v);
    var j := NextSeparator(input, v.indexStart);
    if j == |input| {
      assert Segments(input, v.indexStart)[1..] == [];
      ScanEnds(input, v);
      LastType(input, v);
    } else {
      MoreType(input, j, v);
      assert Segments(input, v.indexStart)[1..] == Segments(input, j + 1);
    }
  }

  lemma MoreType(input: string, j: nat, v: Variables)
    requires v.indexStart <= j < |input| && IsSeparator(input[j]) && v.state.Type?
    requires v.result.area.Some? && v.result.length == 0
    ensures Scan(input, j, v, true) ==
            Typed(input[v.indexStart..j], v.result.area.value, v.result.dbNumber, v.result.offset, Segments(input, j + 1))
  {
    hide TryDetectTypes, TryDetectArea, Number, ToUInt16, Typed, Finish, NextSeparator, Segments;
    AtNumber(input, Parse(v, input[v.indexStart..j], j, true).value);
  }

  lemma LastType(input: string, v: Variables)
    requires v.indexStart <= |input| && v.state.Type? && v.result.area.Some? && v.result.length == 0
    ensures Finish(input, v, true) ==
            Typed(input[v.indexStart..], v.result.area.value, v.result.dbNumber, v.result.offset, [])
  {
    hide TryDetectTypes, TryDetectArea, Number, NextSeparator, Scan;
  }

  lemma AtOffset(input: string, v: Variables)
    requires v.indexStart <= |input| && v.state.Offset? && v.result.area.Some? && v.result.length == 0 && v.tagType == ""
    ensures Scan(input, v.indexStart, v, true) ==
            Located(v.result.area.value, v.result.dbNumber, Segments(input, v.indexStart))
  {
    hide TryDetectTypes, TryDetectArea, Number, ToUInt16, Typed, Finish, Parse, Located, Scan, NextSeparator, Segments;
    SegmentsAt(input, v.indexStart);
    Skip(input, v.indexStart, v);
    var j := NextSeparator(input, v.indexStart);
    if j == |input| {
      ScanEnds(input, v);
      LastOffset(input, v);
    } else {
      MoreOffset(input, j, v);
    }
  }

  lemma MoreOffset(input: string, j: nat, v: Variables)
    requires v.indexStart <= j < |input| && IsSeparator(input[j]) && v.state.Offset?
    requires v.result.area.Some? && v.result.length == 0 && v.tagType == ""
    ensures Scan(input, j, v, true) ==
            Located(v.result.area.value, v.result.dbNumber, [input[v.indexStart..j]] + Segments(input, j + 1))
  {
    hide TryDetectTypes, TryDetectArea, Number, ToUInt16, Typed, Finish, NextSeparator, Segments;
    var next, rest := Parse(v, input[v.indexStart..j], j, true), Segments(input, j + 1);
    assert ([input[v.indexStart..j]] + rest)[2..] == rest[1..];
    if next.Ok? {
      AtType(input, next.value);
    }
  }

  lemma LastOffset(input: string, v: Variables)
    requires v.indexStart <= |input| && v.state.Offset? && v.result.area.Some? && v.result.length == 0 && v.tagType == ""
    ensures Finish(input, v, true) == Located(v.result.area.value, v.result.dbNumber, [input[v.indexStart..]])
  {
    hide TryDetectTypes, TryDetectArea, Number, NextSeparator, Scan;
  }

  /** The state machine computes exactly the meaning of the segments. */
  lemma ParseTagMeaning(tag: string)
    ensures Parsed(tag, true) == Meaning(Segments(ToLower(Trim(tag)), 0))
  {
    hide TryDetectTypes, TryDetectArea, Number, ToUInt16, Typed;
    var input := ToLower(Trim(tag));
    Skip(input, 0, START);
    var j := NextSeparator(input, 0);
    if j < |input| {
      var first := Parse(START, input[0..j], j, true);
      if first.Ok? {
        AtOffset(input, first.value);
      }
    }
  }

  /**
   * What further segments change: a tag of more than four means what its first four mean exactly when the type is not a
   * bit or shifting the offset a second time happens to give it back.
   */
  lemma ExtraSegments(tag: string)
    requires Parsed(tag, true).Ok? && |Segments(ToLower(Trim(tag)), 0)| > 4
    ensures var segments := Segments(ToLower(Trim(tag)), 0);
            && Meaning(segments[..4]).Ok? && segments[2] != ""
            && var once := Meaning(segments[..4]).value;
               (Parsed(tag, true) == Ok(once) <==>
                segments[2][0] != 'x' || Wrap32(Wrap32(once.offset * 8) + SpanToInt(segments[2][1..])) == once.offset)
  {
    hide Number, Wrap32, ToUInt16, TryDetectArea, Segments, Scan, Trim, ToLower;
    ParseTagMeaning(tag);
    var segments := Segments(ToLower(Trim(tag)), 0);
    assert segments[..4][1..][2..] == [segments[3]];
    assert segments[1..][2..] == segments[3..];
  }
}
