/** Printing a request as a tag, and what the request built from that tag asks for. */
module TagRoundTrip {
  import opened Basics
  import opened Numbers
  import opened Tags
  import opened LenientTags
  import Plc

  /** A request as the server builds it; `bit` stands for the transport size of bits. */
  datatype RequestItem = RequestItem(
    area: Plc.PlcArea,
    dbNumber: u16,
    numberOfItems: u16,
    offset: int32,
    bit: bool,
    elementSize: u16
  )

  function AreaName(item: RequestItem): string {
    match item.area
    case DB => "DB" + Print(item.dbNumber)
    case IB => "I"
    case FB => "M"
    case QB => "Q"
    case TM => "T"
    case CT => "C"
    case _ => ""
  }

  /** The product of the two 16-bit numbers is computed with 32 bits. */
  function ToTag(item: RequestItem): string {
    if AreaName(item) == "" then ""
    else AreaName(item) + "." + Print(item.offset) + ",B," + Print(Wrap32(item.numberOfItems * item.elementSize))
  }

  /** What the parser makes of a printed tag. */
  function PrintedMeaning(item: RequestItem): Result<TagParserResult> {
    if AreaName(item) == "" then Throws(IndexOutOfRange)
    else if (item.area.DB? && item.dbNumber == 0) || item.offset < 0 then Throws(TagParse)
    else if item.numberOfItems * item.elementSize > 0x7fff_ffff then Throws(TagParse)
    else if item.numberOfItems * item.elementSize > 0xffff then Throws(Overflow)
    else
      var length: u16 := Max(item.numberOfItems * item.elementSize, 1);
      Ok(TagParserResult(Some(item.area), if item.area.DB? then item.dbNumber else 0, item.offset, length,
                         Some(Byte), Some(Sized(Byte, length)), Success))
  }

  /** No separator and no white space. */
  predicate Plain(s: string) { forall c <- s :: !IsSeparator(c) && !IsWhiteSpace(c) }

  lemma PrintIsPlain(x: int)
    ensures Print(x) != "" && Plain(Print(x)) && ToLower(Print(x)) == Print(x)
  {
    DecimalDenotes(if x < 0 then -x else x);
    assert forall c <- Print(x) :: IsDigit(c) || c == '-';
    LowerSame(Print(x));
  }

  lemma LowerSame(s: string)
    requires forall c <- s :: LowerChar(c) == c
    ensures ToLower(s) == s
  {
    forall k | 0 <= k < |s| ensures ToLower(s)[k] == s[k] {
      assert s[k] in s;
    }
  }

  lemma {:induction false} FindSeparator(a: string, rest: string, i: nat)
    requires Plain(a) && i <= |a| && (rest == "" || IsSeparator(rest[0]))
    ensures NextSeparator(a + rest, i) == |a|
    decreases |a| - i
  {
    if i < |a| {
      assert (a + rest)[i] == a[i] && a[i] in a;
      FindSeparator(a, rest, i + 1);
    }
  }

  /** The segments of an input do not depend on what stands before them. */
  lemma {:induction false} SegmentsShift(before: string, s: string, i: nat)
    requires i <= |s|
    ensures Segments(before + s, |before| + i) == Segments(s, i)
    decreases |s| - i
  {
    hide NextSeparator;
    SeparatorShift(before, s, i);
    var j := NextSeparator(s, i);
    if j == |s| {
      assert (before + s)[|before| + i..] == s[i..];
    } else {
      assert (before + s)[|before| + i..|before| + j] == s[i..j];
      SegmentsShift(before, s, j + 1);
    }
  }

  lemma {:induction false} SeparatorShift(before: string, s: string, i: nat)
    requires i <= |s|
    ensures NextSeparator(before + s, |before| + i) == |before| + NextSeparator(s, i)
    decreases |s| - i
  {
    if i < |s| && !IsSeparator(s[i]) {
      assert (before + s)[|before| + i] == s[i];
      SeparatorShift(before, s, i + 1);
    }
  }

  lemma SplitFirst(a: string, separator: char, rest: string)
    requires Plain(a) && IsSeparator(separator)
    ensures Segments(a + [separator] + rest, 0) == [a] + Segments(rest, 0)
  {
    var input := a + [separator] + rest;
    assert input == a + ([separator] + rest);
    FindSeparator(a, [separator] + rest, 0);
    assert input[0..|a|] == a;
    SegmentsShift(a + [separator], rest, 0);
  }

  lemma SplitLast(a: string)
    requires Plain(a)
    ensures Segments(a, 0) == [a]
  {
    assert a + "" == a;
    FindSeparator(a, "", 0);
  }

  /** An input of three or four plain segments has exactly these. */
  lemma ThreeSegments(a: string, p: char, b: string, q: char, c: string)
    requires Plain(a) && Plain(b) && Plain(c) && IsSeparator(p) && IsSeparator(q)
    ensures Segments(a + [p] + b + [q] + c, 0) == [a, b, c]
  {
    hide Segments, Plain;
    SplitLast(c);
    SplitFirst(b, q, c);
    SplitFirst(a, p, b + [q] + c);
    Regroup(a + [p], b, [q], c);
  }

  lemma FourSegments(a: string, p: char, b: string, q: char, c: string, r: char, d: string)
    requires Plain(a) && Plain(b) && Plain(c) && Plain(d) && IsSeparator(p) && IsSeparator(q) && IsSeparator(r)
    ensures Segments(a + [p] + b + [q] + c + [r] + d, 0) == [a, b, c, d]
  {
    hide Segments, Plain;
    ThreeSegments(b, q, c, r, d);
    SplitFirst(a, p, b + [q] + c + [r] + d);
    Regroup(a + [p], b, [q], c);
    Regroup(a + [p], b + [q] + c, [r], d);
  }

  lemma Regroup(p: string, q: string, r: string, s: string)
    ensures p + (q + r + s) == p + q + r + s
  {}

  lemma TrimKeeps(s: string)
    requires s != "" && !IsWhiteSpace(s[0]) && !IsWhiteSpace(s[|s| - 1])
    ensures Trim(s) == s
  {}

  lemma LowerAppends(a: string, b: string)
    ensures ToLower(a + b) == ToLower(a) + ToLower(b)
  {}

  /** The input the state machine sees for a printed tag. */
  lemma PrintedInput(item: RequestItem)
    requires AreaName(item) != ""
    ensures var product := Wrap32(item.numberOfItems * item.elementSize);
            Segments(ToLower(Trim(ToTag(item))), 0) ==
            [ToLower(AreaName(item)), Print(item.offset), "b", Print(product)]
  {
    hide Print, Segments, Trim, ToLower;
    var product := Wrap32(item.numberOfItems * item.elementSize);
    var a, b, d := AreaName(item), Print(item.offset), Print(product);
    AreaIsPlain(item);
    PrintIsPlain(item.offset);
    PrintIsPlain(product);
    assert d[|d| - 1] in d && a[0] in a;
    TrimKeeps(ToTag(item));
    LowerTag(a, b, d);
    FourSegments(ToLower(a), '.', b, ',', "b", ',', d);
    assert ToLower(a) + ['.'] + b + [','] + "b" + [','] + d == ToLower(a) + "." + b + "," + "b" + "," + d;
  }

  lemma AreaIsPlain(item: RequestItem)
    ensures Plain(AreaName(item)) && Plain(ToLower(AreaName(item)))
  {
    PrintIsPlain(item.dbNumber);
    hide Print;
  }

  lemma LowerTag(a: string, b: string, d: string)
    requires ToLower(b) == b && ToLower(d) == d
    ensures ToLower(a + "." + b + ",B," + d) == ToLower(a) + "." + b + "," + "b" + "," + d
  {}

  /** The printed area is detected again, except for a data block with number zero. */
  lemma AreaRoundTrip(item: RequestItem)
    requires AreaName(item) != ""
    ensures TryDetectArea(ToLower(AreaName(item))) ==
            if !item.area.DB? then Ok(Some((item.area, 0)))
            else if item.dbNumber == 0 then Ok(None)
            else Ok(Some((Plc.DB, item.dbNumber)))
  {
    hide Print, Number, ToLower;
    if item.area.DB? {
      var digits := Print(item.dbNumber);
      PrintIsPlain(item.dbNumber);
      PrintedNumber(item.dbNumber);
      LowerAppends("DB", digits);
      LowerName("DB");
      assert ("db" + digits)[2..] == digits;
    } else {
      LowerName(AreaName(item));
    }
  }

  lemma LowerName(s: string)
    requires s == "DB" || (|s| == 1 && s[0] in "IMQTC")
    ensures ToLower(s) == if s == "DB" then "db" else [LowerChar(s[0])]
  {}

  lemma FourMeaning(a: string, b: string, c: string, d: string)
    ensures Meaning([a, b, c, d]) ==
            match TryDetectArea(a)
            case Throws(failure) => Throws(failure)
            case Ok(None) => Throws(TagParse)
            case Ok(Some((area, db))) =>
              if Number(b).None? then Throws(TagParse) else Typed(c, area, db, Number(b).value, [d])
  {
    hide TryDetectArea, Number, Typed;
    assert [a, b, c, d][1..] == [b, c, d] && [b, c, d][2..] == [d];
  }

  /** The fields come back unless an exception is thrown; a length of zero becomes one. */
  lemma PrintedFields(item: RequestItem)
    ensures Parsed(ToTag(item), true) == PrintedMeaning(item)
    ensures PrintedMeaning(item).Ok? ==> Parsed(ToTag(item), false) == PrintedMeaning(item)
  {
    hide Print, Segments, Scan, Number, Wrap32, Plain, ToLower, Trim, TryDetectArea, Meaning;
    ParseTagMeaning(ToTag(item));
    if AreaName(item) == "" {
      EmptyTagThrows();
    } else {
      PrintedInput(item);
      var area, product := ToLower(AreaName(item)), Wrap32(item.numberOfItems * item.elementSize);
      FourMeaning(area, Print(item.offset), "b", Print(product));
      AreaRoundTrip(item);
      PrintedNumber(item.offset);
      PrintedNumber(product);
      PrintIsPlain(product);
      ProductFits(item.numberOfItems, item.elementSize);
      if Parsed(ToTag(item), true).Ok? {
        ScanAgrees(ToLower(Trim(ToTag(item))), 0, START);
      }
    }
  }

  lemma EmptyTagThrows()
    ensures Parsed("", true) == Throws(IndexOutOfRange)
  {}

  /** A product beyond the range of `int` turns negative, so it cannot be mistaken for a small one. */
  lemma ProductFits(a: u16, b: u16)
    ensures 0 <= a * b
    ensures Wrap32(a * b) == if a * b <= 0x7fff_ffff then a * b else a * b - 0x1_0000_0000
    ensures a * b > 0x7fff_ffff ==> Wrap32(a * b) < 0
  {
    hide Wrap32;
    ProductBound(a, b);
    WrapOnce(a * b);
  }

  lemma ProductBound(a: u16, b: u16)
    ensures 0 <= a * b <= 0xfffe_0001
  {
    Monotone(0, a, b);
    Monotone(a, 0xffff, b);
  }

  lemma Monotone(x: int, y: int, z: nat)
    requires x <= y
    ensures x * z <= y * z
  {}

  lemma WrapOnce(p: int)
    requires 0 <= p <= 0xfffe_0001
    ensures Wrap32(p) == if p <= 0x7fff_ffff then p else p - 0x1_0000_0000
  {}

  // ---- what the request and the item built from its tag ask for ----

  /** Bits of a block: the first one and how many. */
  datatype Region = Region(area: Plc.PlcArea, dbNumber: u16, startBit: int, bits: nat)

  /** The provider reads one bit at the bit offset of a bit request, else whole elements from the byte offset on. */
  function AskedBy(item: RequestItem): Region {
    if item.bit then Region(item.area, item.dbNumber, item.offset, 1)
    else Region(item.area, item.dbNumber, item.offset * 8, item.numberOfItems * item.elementSize * 8)
  }

  /** The item that CreateFromTag builds, as far as it addresses the PLC. */
  datatype ReadItem = ReadItem(
    area: Plc.PlcArea,
    dbNumber: u16,
    offset: int32,
    numberOfItems: u16,
    varType: ScalarType,
    elementSize: u16
  )

  function GetElementSize(area: Plc.PlcArea, t: ScalarType): u16 {
    if area.CT? || area.TM? then 2
    else
      match t
      case Byte => 1
      case Bool => 1
      case Char => 1
      case String => 1
      case Short => 2
      case UShort => 2
      case Int => 4
      case UInt => 4
      case Float => 4
      case ULong => 8
  }

  const STRING_HEADER_SIZE := 2

  /** None stands for the exceptions, also the one for arrays of bits. */
  function CreateFromTag(tag: string): Option<ReadItem> {
    match Parsed(tag, true)
    case Throws(_) => None
    case Ok(r) =>
      if r.area.None? || r.varType.None? || r.resultType == Some(Many(Bool)) then None
      else
        var t := r.varType.value;
        var count: u16 := if t.String? then (r.length + STRING_HEADER_SIZE) % 0x1_0000 else r.length;
        Some(ReadItem(r.area.value, r.dbNumber, r.offset, count, t, GetElementSize(r.area.value, t)))
  }

  function AskedByItem(item: ReadItem): Region {
    if item.varType.Bool? then Region(item.area, item.dbNumber, item.offset, 1)
    else Region(item.area, item.dbNumber, item.offset * 8, item.numberOfItems * item.elementSize * 8)
  }

  predicate AsksTheSame(item: RequestItem) {
    var built := CreateFromTag(ToTag(item));
    built.Some? && AskedByItem(built.value) == AskedBy(item)
  }

  /** What a tag can say: bytes of a data block, of the inputs, of the flags or of the outputs. */
  predicate Portable(item: RequestItem) {
    && !item.bit
    && (item.area.DB? || item.area.IB? || item.area.FB? || item.area.QB?)
    && (if item.area.DB? then item.dbNumber >= 1 else item.dbNumber == 0)
    && item.offset >= 0
    && 1 <= item.numberOfItems * item.elementSize <= 0xffff
  }

  /**
   * The item built from the printed tag asks for the same bits as the request for exactly the portable requests. The
   * others: bits, whose offset is printed as if it counted bytes; timers and counters, whose bytes are counted as
   * elements of two bytes; areas without a name; data block zero and block numbers outside data blocks; negative
   * offsets; and lengths in bytes that are zero or do not fit in 16 bits.
   */
  lemma RoundTrip(item: RequestItem)
    ensures AsksTheSame(item) <==> Portable(item)
  {
    hide ToTag, Parsed;
    PrintedFields(item);
    ProductFits(item.numberOfItems, item.elementSize);
    hide Wrap32;
  }

  /** Bit 13 of a data block, that is bit 5 of its byte 1, is printed as byte 13. */
  lemma BitExample()
    ensures var item := RequestItem(Plc.DB, 1, 1, 13, true, 1);
            && CreateFromTag(ToTag(item)).Some?
            && AskedBy(item) == Region(Plc.DB, 1, 13, 1)
            && AskedByItem(CreateFromTag(ToTag(item)).value) == Region(Plc.DB, 1, 104, 8)
  {
    hide ToTag, Parsed;
    PrintedFields(RequestItem(Plc.DB, 1, 1, 13, true, 1));
  }

  /** Two timers are four bytes, and their tag asks for eight. */
  lemma TimerExample()
    ensures var item := RequestItem(Plc.TM, 0, 2, 5, false, 2);
            && CreateFromTag(ToTag(item)).Some?
            && AskedBy(item) == Region(Plc.TM, 0, 40, 32)
            && AskedByItem(CreateFromTag(ToTag(item)).value) == Region(Plc.TM, 0, 40, 64)
  {
    hide ToTag, Parsed;
    PrintedFields(RequestItem(Plc.TM, 0, 2, 5, false, 2));
  }

  // ---- a superfluous segment ----

  /** The same bit with and without a fifth segment: bit 3 of byte 1 is bit 11, the other tag gives bit 91. */
  lemma ExtraSegmentExample()
    ensures Parsed("i.1,x3,1", true).Ok? && Parsed("i.1,x3,1", true).value.offset == 11
    ensures Parsed("i.1,x3,1,2", true).Ok? && Parsed("i.1,x3,1,2", true).value.offset == 91
  {
    hide Segments, Scan, ToLower, Trim, Meaning;
    FourSegments("i", '.', "1", ',', "x3", ',', "1");
    assert "i" + ['.'] + "1" + [','] + "x3" + [','] + "1" == "i.1,x3,1";
    FiveSegments();
    PlainTag("i.1,x3,1");
    PlainTag("i.1,x3,1,2");
    ParseTagMeaning("i.1,x3,1");
    ParseTagMeaning("i.1,x3,1,2");
    BitMeaning();
  }

  lemma PlainTag(tag: string)
    requires tag == "i.1,x3,1" || tag == "i.1,x3,1,2"
    ensures ToLower(Trim(tag)) == tag
  {
    TrimKeeps(tag);
    LowerSame(tag);
  }

  lemma FiveSegments()
    ensures Segments("i.1,x3,1,2", 0) == ["i", "1", "x3", "1", "2"]
  {
    hide Segments;
    SplitLast("2");
    SplitFirst("1", ',', "2");
    SplitFirst("x3", ',', "1,2");
    SplitFirst("1", ',', "x3,1,2");
    SplitFirst("i", '.', "1,x3,1,2");
    assert "1" + [','] + "2" == "1,2" && "x3" + [','] + "1,2" == "x3,1,2";
    assert "1" + [','] + "x3,1,2" == "1,x3,1,2" && "i" + ['.'] + "1,x3,1,2" == "i.1,x3,1,2";
  }

  lemma BitMeaning()
    ensures Meaning(["i", "1", "x3", "1"]).Ok? && Meaning(["i", "1", "x3", "1"]).value.offset == 11
    ensures Meaning(["i", "1", "x3", "1", "2"]).Ok? && Meaning(["i", "1", "x3", "1", "2"]).value.offset == 91
  {
    OneDigit('1');
    OneDigit('3');
    hide Number;
    assert "x3"[1..] == "3";
    assert ["i", "1", "x3", "1"][1..][2..] == ["1"] && ["i", "1", "x3", "1", "2"][1..][2..] == ["1", "2"];
    assert TryDetectTypes("x3", 1, 1) == Some((Bool, One(Bool), 11));
    assert TryDetectTypes("x3", 1, 11) == Some((Bool, One(Bool), 91));
  }

  lemma OneDigit(c: char)
    requires IsDigit(c)
    ensures Number([c]) == Some(Digit(c))
  {
    assert [c][..0] == [] && Value([]) == 0;
  }
}
