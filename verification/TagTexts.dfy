/** Which texts are tags: the spellings of areas and types, and what the item built from a tag asks for. */
module TagTexts {
  import opened Basics
  import opened Numbers
  import opened Tags
  import opened LenientTags
  import opened TagRoundTrip
  import Plc

  // ---- letter case and white space ----

  const UPPER := "ABCDEFGHIJKLMNOPQRSTUVWXYZ"
  const LOWER := "abcdefghijklmnopqrstuvwxyz"

  /** Upper-case letters become lower-case ones, all other characters stay. */
  lemma LowerLaw(s: string, k: nat, letter: nat)
    requires k < |s| && letter < 26
    ensures |ToLower(s)| == |s|
    ensures s[k] == UPPER[letter] ==> ToLower(s)[k] == LOWER[letter]
    ensures s[k] !in UPPER ==> ToLower(s)[k] == s[k]
  {
    assert UPPER[letter] == (65 + letter) as char && LOWER[letter] == (97 + letter) as char by { Letter(letter); }
    if 'A' <= s[k] <= 'Z' {
      Letter(s[k] as int - 65);
      assert UPPER[s[k] as int - 65] in UPPER;
    }
  }

  lemma Letter(n: nat)
    requires n < 26
    ensures UPPER[n] == (65 + n) as char && LOWER[n] == (97 + n) as char
  {}

  ghost predicate Blank(s: string) { forall c <- s :: IsWhiteSpace(c) }

  /** White space around a text does not matter. */
  lemma {:induction false} TrimLaw(before: string, s: string, after: string)
    requires Blank(before) && Blank(after) && s != "" && !IsWhiteSpace(s[0]) && !IsWhiteSpace(s[|s| - 1])
    ensures Trim(before + s + after) == s
    decreases |before| + |after|
  {
    hide IsWhiteSpace;
    var text := before + s + after;
    if before != [] {
      assert text[0] == before[0] && text[1..] == before[1..] + s + after;
      TrimLaw(before[1..], s, after);
    } else if after != [] {
      assert text[0] == s[0] && text[|text| - 1] == after[|after| - 1];
      assert text[..|text| - 1] == before + s + after[..|after| - 1];
      TrimLaw(before, s, after[..|after| - 1]);
    } else {
      assert text == s;
    }
  }

  // ---- spellings, in lower case ----

  /** The names of an area: English, German and old ones, or a data block with a number other than zero. */
  predicate SpellsArea(name: string, area: Plc.PlcArea, db: u16) {
    match area
    case IB => db == 0 && name in {"i", "e", "ib"}
    case FB => db == 0 && name in {"m", "fb"}
    case QB => db == 0 && name in {"q", "a", "qb"}
    case TM => db == 0 && name in {"t", "tm"}
    case CT => db == 0 && name in {"c", "z", "ct"}
    case DB => "db" < name && AllDigits(name[2..]) && Wrap32(Value(name[2..])) == db != 0
    case _ => false
  }

  /** The names of a type. Most may be continued by any text; a bit is continued by its number. */
  predicate SpellsType(name: string, t: ScalarType) {
    match t
    case Byte => "b" <= name
    case Char => "c" <= name
    case UShort => name == "w"
    case ULong => "lw" <= name
    case Short => "i" <= name
    case UInt => "dw" <= name
    case Int => "di" <= name
    case Float => "r" <= name
    case String => "s" <= name && !("si" <= name)
    case Bool => "x" < name
  }

  /** Several elements give an array, but a string is one value whatever its length. */
  function ResultOf(t: ScalarType, length: u16): ClrType {
    if !t.String? && length > 1 then Many(t) else One(t)
  }

  /** The number that follows an x; a text that is no number counts as zero. */
  function BitNumber(name: string): int32
    requires "x" <= name
  {
    if AllDigits(name[1..]) then Wrap32(Value(name[1..])) else 0
  }

  /** The offset of a bit counts bits, all others count bytes. */
  function OffsetOf(t: ScalarType, offset: int32, name: string): int32
    requires t.Bool? ==> "x" <= name
  {
    if t.Bool? then Wrap32(Wrap32(offset * 8) + BitNumber(name)) else offset
  }

  lemma AreasSpelled(name: string, area: Plc.PlcArea, db: u16)
    requires name != ""
    ensures TryDetectArea(name) == Ok(Some((area, db))) <==> SpellsArea(ToLower(name), area, db)
  {
    hide TryDetectArea, SpellsArea, ToLower;
    if |name| <= 2 {
      ShortAreasSpelled(name, area, db);
    } else {
      BlocksSpelled(name, area, db);
    }
  }

  lemma ShortAreasSpelled(name: string, area: Plc.PlcArea, db: u16)
    requires 1 <= |name| <= 2
    ensures TryDetectArea(name) == Ok(Some((area, db))) <==> SpellsArea(ToLower(name), area, db)
  {
    hide Value, Wrap32, Number;
    var lower := ToLower(name);
    if |name| == 1 {
      assert lower == [LowerChar(name[0])];
    } else {
      assert lower == [LowerChar(name[0]), LowerChar(name[1])];
    }
  }

  lemma BlocksSpelled(name: string, area: Plc.PlcArea, db: u16)
    requires |name| > 2
    ensures TryDetectArea(name) == Ok(Some((area, db))) <==> SpellsArea(ToLower(name), area, db)
  {
    hide Value, Wrap32;
    var lower := ToLower(name);
    assert lower[0] == LowerChar(name[0]) && lower[1] == LowerChar(name[1]);
    DigitsLower(name);
  }

  lemma DigitsLower(name: string)
    requires |name| > 2
    ensures AllDigits(name[2..]) <==> AllDigits(ToLower(name)[2..])
    ensures AllDigits(name[2..]) ==> ToLower(name)[2..] == name[2..]
  {
    var lower := ToLower(name);
    assert forall k | 2 <= k < |name| :: name[2..][k - 2] == name[k] && lower[2..][k - 2] == lower[k];
    forall k | 2 <= k < |name| ensures IsDigit(name[k]) <==> IsDigit(lower[k]) {}
    if AllDigits(name[2..]) {
      forall k | 2 <= k < |name| ensures IsDigit(lower[k]) && lower[k] == name[k] {
        assert name[k] in name[2..];
      }
    }
    if AllDigits(lower[2..]) {
      forall k | 2 <= k < |name| ensures IsDigit(name[k]) {
        assert lower[k] in lower[2..];
      }
    }
  }

  lemma TypesSpelled(name: string, length: u16, offset: int32, t: ScalarType)
    requires name != ""
    ensures TryDetectTypes(name, length, offset).Some? && TryDetectTypes(name, length, offset).value.0 == t <==>
            SpellsType(name, t)
    ensures SpellsType(name, t) ==>
              && TryDetectTypes(name, length, offset).value.1 == ResultOf(t, length)
              && TryDetectTypes(name, length, offset).value.2 == OffsetOf(t, offset, name)
  {
    hide Value, Wrap32;
  }

  // ---- whole tags ----

  /** What the four parts of a tag, in lower case, say; a part without digits stands for the length one. */
  predicate Reads(a: string, b: string, c: string, d: string, r: TagParserResult) {
    && r.area.Some? && SpellsArea(a, r.area.value, r.dbNumber)
    && AllDigits(b) && r.varType.Some? && SpellsType(c, r.varType.value)
    && r.offset == OffsetOf(r.varType.value, Wrap32(Value(b)), c)
    && AllDigits(d) && 0 <= Wrap32(Value(d)) < 0x1_0000 && r.length == Max(Wrap32(Value(d)), 1)
    && r.resultType == Some(ResultOf(r.varType.value, r.length))
    && r.errorState == Success
  }

  lemma LowerIsStable(s: string)
    ensures ToLower(ToLower(s)) == ToLower(s)
  {}

  lemma TypedReads(c: string, area: Plc.PlcArea, db: u16, offset: int32, d: string, r: TagParserResult)
    ensures Typed(c, area, db, offset, [d]) == Ok(r) <==>
            && AllDigits(d) && 0 <= Wrap32(Value(d)) < 0x1_0000
            && var length: u16 := Max(Wrap32(Value(d)), 1);
               c != "" && TryDetectTypes(c, length, offset).Some? &&
               var (t, resultType, o) := TryDetectTypes(c, length, offset).value;
               r == TagParserResult(Some(area), db, o, length, Some(t), Some(resultType), Success)
  {
    hide TryDetectTypes;
    EmptyIsZero();
  }

  /** The meaning of four parts, read off the spellings. */
  lemma MeaningReads(a: string, b: string, c: string, d: string, r: TagParserResult)
    ensures Meaning([ToLower(a), b, ToLower(c), d]) == Ok(r) <==> Reads(ToLower(a), b, ToLower(c), d, r)
  {
    hide TryDetectArea, TryDetectTypes, Typed, Value, Wrap32, SpellsArea, SpellsType, ToLower;
    var area := TryDetectArea(ToLower(a));
    FourMeaning(ToLower(a), b, ToLower(c), d);
    EmptySpellsNothing(r);
    if ToLower(a) != "" {
      LowerIsStable(a);
      if r.area.Some? {
        AreasSpelled(ToLower(a), r.area.value, r.dbNumber);
      }
      if area.Ok? && area.value.Some? && AllDigits(b) {
        AreasSpelled(ToLower(a), area.value.value.0, area.value.value.1);
        OneTyped(area.value.value.0, area.value.value.1, b, ToLower(c), d, r);
      }
    } else {
      NoArea();
    }
  }

  lemma NoArea()
    ensures TryDetectArea("") == Throws(IndexOutOfRange)
  {}

  lemma EmptySpellsNothing(r: TagParserResult)
    ensures r.area.Some? ==> !SpellsArea("", r.area.value, r.dbNumber)
    ensures r.varType.Some? ==> !SpellsType("", r.varType.value)
  {}

  lemma OneTyped(area: Plc.PlcArea, db: u16, b: string, c: string, d: string, r: TagParserResult)
    requires AllDigits(b)
    ensures Typed(c, area, db, Wrap32(Value(b)), [d]) == Ok(r) <==>
            && r.area == Some(area) && r.dbNumber == db
            && r.varType.Some? && SpellsType(c, r.varType.value)
            && r.offset == OffsetOf(r.varType.value, Wrap32(Value(b)), c)
            && AllDigits(d) && 0 <= Wrap32(Value(d)) < 0x1_0000 && r.length == Max(Wrap32(Value(d)), 1)
            && r.resultType == Some(ResultOf(r.varType.value, r.length))
            && r.errorState == Success
  {
    hide TryDetectTypes, Typed, Value, Wrap32, SpellsArea, SpellsType, BitNumber;
    var offset := Wrap32(Value(b));
    TypedReads(c, area, db, offset, d, r);
    EmptySpellsNothing(r);
    if c != "" && AllDigits(d) && 0 <= Wrap32(Value(d)) < 0x1_0000 {
      var length: u16 := Max(Wrap32(Value(d)), 1);
      if r.varType.Some? {
        TypesSpelled(c, length, offset, r.varType.value);
      }
      if TryDetectTypes(c, length, offset).Some? {
        TypesSpelled(c, length, offset, TryDetectTypes(c, length, offset).value.0);
      }
    }
  }

  lemma PlainLower(s: string)
    requires Plain(s)
    ensures Plain(ToLower(s))
  {
    forall c | c in ToLower(s) ensures !IsSeparator(c) && !IsWhiteSpace(c) {
      var k :| 0 <= k < |s| && ToLower(s)[k] == c;
      assert s[k] in s;
    }
  }

  lemma EndsPlain(a: string, p: char, rest: string, q: char, d: string)
    requires Plain(a) && Plain(d) && IsSeparator(p) && IsSeparator(q)
    ensures var tag := a + [p] + rest + [q] + d; tag != "" && !IsWhiteSpace(tag[0]) && !IsWhiteSpace(tag[|tag| - 1])
  {
    var tag := a + [p] + rest + [q] + d;
    if a != "" {
      assert tag[0] == a[0] && a[0] in a;
    } else {
      assert tag[0] == p;
    }
    if d != "" {
      assert tag[|tag| - 1] == d[|d| - 1] && d[|d| - 1] in d;
    } else {
      assert tag[|tag| - 1] == q;
    }
  }

  lemma LowerParts(a: string, p: char, b: string)
    requires IsSeparator(p)
    ensures ToLower(a + [p] + b) == ToLower(a) + [p] + ToLower(b)
  {}

  /** The input the state machine sees: white space is cut off and letters are lower case. */
  lemma FourParts(before: string, a: string, p: char, b: string, q: char, c: string, s: char, d: string, after: string)
    requires Blank(before) && Blank(after) && Plain(a) && Plain(b) && Plain(c) && Plain(d)
    requires IsSeparator(p) && IsSeparator(q) && IsSeparator(s)
    ensures Segments(ToLower(Trim(before + (a + [p] + b + [q] + c + [s] + d) + after)), 0) ==
            [ToLower(a), ToLower(b), ToLower(c), ToLower(d)]
  {
    hide Plain, Blank, Trim, ToLower, Segments, IsSeparator;
    var tag := a + [p] + b + [q] + c + [s] + d;
    assert tag == a + [p] + (b + [q] + c) + [s] + d;
    EndsPlain(a, p, b + [q] + c, s, d);
    TrimLaw(before, tag, after);
    LowerParts(a + [p] + b + [q] + c, s, d);
    LowerParts(a + [p] + b, q, c);
    LowerParts(a, p, b);
    PlainLower(a);
    PlainLower(b);
    PlainLower(c);
    PlainLower(d);
    FourSegments(ToLower(a), p, ToLower(b), q, ToLower(c), s, ToLower(d));
  }

  /** A tag of four parts is parsed exactly as its parts are spelled, in any letter case and with white space around it. */
  lemma FourPartTag(before: string, a: string, p: char, b: string, q: char, c: string, s: char, d: string, after: string,
                    r: TagParserResult)
    requires Blank(before) && Blank(after) && Plain(a) && Plain(b) && Plain(c) && Plain(d)
    requires IsSeparator(p) && IsSeparator(q) && IsSeparator(s)
    ensures var tag := before + (a + [p] + b + [q] + c + [s] + d) + after;
            && (Parsed(tag, true) == Ok(r) <==> Reads(ToLower(a), ToLower(b), ToLower(c), ToLower(d), r))
            && (Parsed(tag, true) == Ok(r) ==> Parsed(tag, false) == Ok(r))
  {
    hide Plain, Blank, Trim, ToLower, Segments, Meaning, Scan, Reads, IsSeparator;
    var tag := before + (a + [p] + b + [q] + c + [s] + d) + after;
    FourParts(before, a, p, b, q, c, s, d, after);
    ParseTagMeaning(tag);
    MeaningReads(a, ToLower(b), c, ToLower(d), r);
    OnlyTryParseTag(tag);
  }

  /** Without the fourth part the length is one. */
  lemma ThreePartTag(before: string, a: string, p: char, b: string, q: char, c: string, after: string, r: TagParserResult)
    requires Blank(before) && Blank(after) && Plain(a) && Plain(b) && Plain(c) && IsSeparator(p) && IsSeparator(q)
    ensures var tag := before + (a + [p] + b + [q] + c) + after;
            && (Parsed(tag, true) == Ok(r) <==> Reads(ToLower(a), ToLower(b), ToLower(c), "", r))
            && (Parsed(tag, true) == Ok(r) ==> Parsed(tag, false) == Ok(r))
  {
    hide Plain, Blank, Trim, ToLower, Segments, Meaning, Scan, Reads, IsSeparator;
    var tag := before + (a + [p] + b + [q] + c) + after;
    EndsPlain(a, p, b, q, c);
    TrimLaw(before, a + [p] + b + [q] + c, after);
    LowerParts(a + [p] + b, q, c);
    LowerParts(a, p, b);
    PlainLower(a);
    PlainLower(b);
    PlainLower(c);
    ThreeSegments(ToLower(a), p, ToLower(b), q, ToLower(c));
    ParseTagMeaning(tag);
    ThreeMeaning(ToLower(a), ToLower(b), ToLower(c));
    MeaningReads(a, ToLower(b), c, "", r);
    OnlyTryParseTag(tag);
  }

  lemma ThreeMeaning(a: string, b: string, c: string)
    ensures Meaning([a, b, c]) == Meaning([a, b, c, ""])
  {
    hide TryDetectArea, Number, TypedBy;
    FourMeaning(a, b, c, "");
    assert [a, b, c][1..] == [b, c] && [b, c][2..] == [];
  }

  // ---- what the item built from a tag asks for ----

  /** Bits of one element; timers and counters are 16 bits whatever the type says. */
  function BitWidth(area: Plc.PlcArea, t: ScalarType): nat {
    if area.TM? || area.CT? then 16
    else
      match t
      case Byte => 8
      case Char => 8
      case String => 8
      case Short => 16
      case UShort => 16
      case Int => 32
      case UInt => 32
      case Float => 32
      case ULong => 64
      case Bool => 8
  }

  /** Elements that are read: a string has two header bytes before its characters. */
  function Elements(t: ScalarType, length: u16): nat {
    if t.String? then (length + 2) % 0x1_0000 else length
  }

  /**
   * The item asks for one bit at the bit offset when the tag names a bit, else for that many elements from the byte
   * offset on; arrays of bits are refused.
   */
  lemma TagAsksFor(tag: string, r: TagParserResult)
    requires Parsed(tag, true) == Ok(r) && r.area.Some? && r.varType.Some?
    requires r.resultType == Some(ResultOf(r.varType.value, r.length))
    ensures CreateFromTag(tag).None? <==> r.varType.value.Bool? && r.length > 1
    ensures CreateFromTag(tag).Some? ==>
              AskedByItem(CreateFromTag(tag).value) ==
              if r.varType.value.Bool? then Region(r.area.value, r.dbNumber, r.offset, 1)
              else Region(r.area.value, r.dbNumber, 8 * r.offset,
                          Elements(r.varType.value, r.length) * BitWidth(r.area.value, r.varType.value))
  {
    hide Parsed;
  }

  /** The names for signed and unsigned 16-bit numbers. */
  lemma ShortExample()
    ensures Parsed("I.1,i,1", true) == Ok(TagParserResult(Some(Plc.IB), 0, 1, 1, Some(Short), Some(One(Short)), Success))
    ensures Parsed("e.1,W,3", true) == Ok(TagParserResult(Some(Plc.IB), 0, 1, 3, Some(UShort), Some(Many(UShort)), Success))
  {
    hide Parsed;
    OneDigit('1');
    OneDigit('3');
    LowerAll();
    FourPartTag("", "I", '.', "1", ',', "i", ',', "1", "",
                TagParserResult(Some(Plc.IB), 0, 1, 1, Some(Short), Some(One(Short)), Success));
    assert "" + ("I" + ['.'] + "1" + [','] + "i" + [','] + "1") + "" == "I.1,i,1";
    FourPartTag("", "e", '.', "1", ',', "W", ',', "3", "",
                TagParserResult(Some(Plc.IB), 0, 1, 3, Some(UShort), Some(Many(UShort)), Success));
    assert "" + ("e" + ['.'] + "1" + [','] + "W" + [','] + "3") + "" == "e.1,W,3";
  }

  lemma LowerAll()
    ensures ToLower("I") == "i" && ToLower("1") == "1" && ToLower("i") == "i" && ToLower("e") == "e"
    ensures ToLower("W") == "w" && ToLower("3") == "3"
  {}
}
