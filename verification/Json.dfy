/** JSON string escaping: `json_string` of `src/builtins.rs`, and a reader for section 7 of RFC 8259. */
module Json {
  import opened Common
  import opened Utf8
  import opened StoredStrings
  import opened Decoders

  const HEX_TAG: bv64 := 1
  const HEX_AMP: bv64 := 2
  const HEX_APOS: bv64 := 4
  const HEX_QUOT: bv64 := 8
  const UNESCAPED_SLASHES: bv64 := 64
  const UNESCAPED_UNICODE: bv64 := 256
  const UNESCAPED_LINE_TERMINATORS: bv64 := 2048
  const INVALID_UTF8_SUBSTITUTE: bv64 := 2097152

  predicate IsSet(flags: bv64, bit: bv64) {
    flags & bit != 0
  }

  const QUOTE: Scalar := 0x22
  const BACKSLASH: Scalar := 0x5C
  const SLASH: Scalar := 0x2F
  const LETTER_U: Scalar := 0x75

  // ---------- the encoder ----------

  function HexValue(c: Scalar): (d: Option<int>)
    ensures d.Some? ==> 0 <= d.value < 16
  {
    if 0x30 <= c <= 0x39 then Some(c - 0x30)
    else if 0x41 <= c <= 0x46 then Some(c - 0x41 + 10)
    else if 0x61 <= c <= 0x66 then Some(c - 0x61 + 10)
    else None
  }

  /** A hexadecimal digit; `ten` is the letter for ten, which sets the case. */
  function HexDigit(d: int, ten: Scalar): (c: Scalar)
    requires 0 <= d < 16 && ten in {0x41, 0x61}
    ensures HexValue(c) == Some(d) && c < 0x80
  {
    if d < 10 then 0x30 + d else ten + (d - 10)
  }

  /** `\u` and four digits. */
  function UnicodeEscape(u: int, ten: Scalar): (e: Text)
    requires 0 <= u < 0x10000 && ten in {0x41, 0x61}
    ensures |e| == 6 && forall i :: 0 <= i < 6 ==> e[i] < 0x80
  {
    [BACKSLASH, LETTER_U, HexDigit(u / 0x1000, ten), HexDigit(u / 0x100 % 0x10, ten),
     HexDigit(u / 0x10 % 0x10, ten), HexDigit(u % 0x10, ten)]
  }

  /** `encode_utf16`. */
  function Utf16(c: Scalar): seq<int> {
    if c < 0x10000 then [c] else [0xD800 + (c - 0x10000) / 0x400, 0xDC00 + (c - 0x10000) % 0x400]
  }

  function Lower(u: int): Text
    requires 0 <= u < 0x10000
  {
    UnicodeEscape(u, 0x61)
  }

  function Upper(u: int): Text
    requires 0 <= u < 0x10000
  {
    UnicodeEscape(u, 0x41)
  }

  /** What is written for one character, in the order of the encoder's arms. */
  function EscapedChar(flags: bv64, c: Scalar): Text {
    if c == 0x3C && IsSet(flags, HEX_TAG) then Upper(0x3C)
    else if c == 0x3E && IsSet(flags, HEX_TAG) then Upper(0x3E)
    else if c == 0x26 && IsSet(flags, HEX_AMP) then Upper(0x26)
    else if c == 0x27 && IsSet(flags, HEX_APOS) then Upper(0x27)
    else if c == QUOTE && IsSet(flags, HEX_QUOT) then Upper(0x22)
    else if c == QUOTE then [BACKSLASH, QUOTE]
    else if c == BACKSLASH then [BACKSLASH, BACKSLASH]
    else if c == 0x0A then [BACKSLASH, 0x6E]
    else if c == 0x0D then [BACKSLASH, 0x72]
    else if c == 0x09 then [BACKSLASH, 0x74]
    else if c == 0x08 then [BACKSLASH, 0x62]
    else if c == 0x0C then [BACKSLASH, 0x66]
    else if c == SLASH && !IsSet(flags, UNESCAPED_SLASHES) then [BACKSLASH, SLASH]
    else if c < 0x20 then Lower(c)
    else if c == 0x2028 && !IsSet(flags, UNESCAPED_LINE_TERMINATORS) then Lower(0x2028)
    else if c == 0x2029 && !IsSet(flags, UNESCAPED_LINE_TERMINATORS) then Lower(0x2029)
    else if !IsSet(flags, UNESCAPED_UNICODE) && c >= 0x80 then
      if c < 0x10000 then Lower(c) else Lower(Utf16(c)[0]) + Lower(Utf16(c)[1])
    else [c]
  }

  /** What is written for one unit of the input: an invalid one is substituted or dropped. */
  function EscapedUnit(flags: bv64, unit: Option<Scalar>): Text {
    match unit
    case Some(c) => EscapedChar(flags, c)
    case None =>
      if !IsSet(flags, INVALID_UTF8_SUBSTITUTE) then []
      else if IsSet(flags, UNESCAPED_UNICODE) then [0xFFFD]
      else Lower(0xFFFD)
  }

  function EscapedUnits(flags: bv64, units: seq<Option<Scalar>>): Text {
    if units == [] then [] else EscapedUnit(flags, units[0]) + EscapedUnits(flags, units[1..])
  }

  /** The units of a stored string, as ext/standard decodes them. */
  function UnitsOf(s: Text): seq<Option<Scalar>> {
    CharsOf(PhpUnits(PhpBytes(s)))
  }

  function Somes(text: Text): seq<Option<Scalar>> {
    seq(|text|, i requires 0 <= i < |text| => Some(text[i]))
  }

  method JsonString(s: Text, flags: bv64) returns (out: Text)
    ensures out == [QUOTE] + EscapedUnits(flags, UnitsOf(s)) + [QUOTE]
  {
    hide UnitsOf, EscapedUnit, EscapedUnits;
    var units;
    if HasRaw(s) {
      units := PhpUtf8Units(s);
      assert units == UnitsOf(s) by { UnitsOfRaw(s); }
    } else {
      units := Somes(s);
      PlainUnits(s);
    }
    out := [QUOTE];
    EscapedUnitsStep(flags, units, 0);
    for i := 0 to |units|
      invariant out + EscapedUnits(flags, units[i..]) == [QUOTE] + EscapedUnits(flags, units)
    {
      EscapedUnitsStep(flags, units, i);
      out := out + EscapedUnit(flags, units[i]);
    }
    EscapedUnitsStep(flags, units, |units|);
    out := out + [QUOTE];
  }

  lemma EscapedUnitsStep(flags: bv64, units: seq<Option<Scalar>>, i: nat)
    requires i <= |units|
    ensures i == |units| ==> EscapedUnits(flags, units[i..]) == []
    ensures i < |units| ==>
              EscapedUnits(flags, units[i..]) == EscapedUnit(flags, units[i]) + EscapedUnits(flags, units[i + 1..])
    ensures units[0..] == units
  {
    assert i < |units| ==> units[i..][1..] == units[i + 1..];
  }

  lemma UnitsOfRaw(s: Text)
    ensures UnitsOf(s) == CharsOf(PhpUnits(PhpBytes(s)))
  {
  }

  lemma {:induction false} UnitsOfUtf8(text: Text)
    ensures CharsOf(PhpUnits(EncodeAll(text))) == Somes(text)
  {
    hide PhpNext, Decode, CharLen, Encode;
    if text != [] {
      var b, rest := EncodeAll(text), EncodeAll(text[1..]);
      DecodeEncode(text[0], rest);
      PhpNextDecodes(b);
      var u, n := PhpFirst(b);
      assert b[n..] == rest;
      UnitsOfUtf8(text[1..]);
      assert CharsOf(PhpUnits(b)) == [Some(text[0])] + CharsOf(PhpUnits(rest)) by {
        assert ([u] + PhpUnits(rest))[1..] == PhpUnits(rest);
      }
      assert Somes(text) == [Some(text[0])] + Somes(text[1..]);
    }
  }

  /** Without an escape the characters of the string are its units. */
  lemma PlainUnits(s: Text)
    requires !HasRaw(s)
    ensures UnitsOf(s) == Somes(s)
  {
    HasRawIsHasEscape(s);
    PlainTextIsItself(s);
    UnitsOfUtf8(s);
  }

  // ---------- the reader ----------

  /** The code unit that `\uXXXX` at the start of `t` spells, if it does. */
  function CodeUnit(t: Text): (u: Option<int>)
    ensures u.Some? ==> |t| >= 6 && 0 <= u.value < 0x10000
  {
    hide HexValue;
    if |t| < 6 || t[0] != BACKSLASH || t[1] != LETTER_U then None
    else
      var (a, b, c, d) := (HexValue(t[2]), HexValue(t[3]), HexValue(t[4]), HexValue(t[5]));
      if a.None? || b.None? || c.None? || d.None? then None
      else Some(((a.value * 0x10 + b.value) * 0x10 + c.value) * 0x10 + d.value)
  }

  /** The character that a two-character escape stands for. */
  function ShortEscape(c: Scalar): Option<Scalar> {
    match c
    case 0x22 => Some(0x22)
    case 0x5C => Some(0x5C)
    case 0x2F => Some(0x2F)
    case 0x62 => Some(0x08)
    case 0x66 => Some(0x0C)
    case 0x6E => Some(0x0A)
    case 0x72 => Some(0x0D)
    case 0x74 => Some(0x09)
    case _ => None
  }

  /** The first character of a string body and the length of its spelling. A surrogate stands only as
      half of a pair. */
  function FirstChar(t: Text): (r: Option<(Scalar, nat)>)
    ensures r.Some? ==> 1 <= r.value.1 <= |t|
  {
    if t == [] || t[0] == QUOTE || t[0] < 0x20 then None
    else if t[0] != BACKSLASH then Some((t[0], 1))
    else if |t| == 1 then None
    else if t[1] != LETTER_U then
      match ShortEscape(t[1]) case Some(c) => Some((c, 2)) case None => None
    else match CodeUnit(t)
      case None => None
      case Some(u) =>
        if 0xDC00 <= u <= 0xDFFF then None
        else if !(0xD800 <= u <= 0xDBFF) then Some((u, 6))
        else match CodeUnit(t[6..])
          case Some(v) =>
            if 0xDC00 <= v <= 0xDFFF then Some((0x10000 + (u - 0xD800) * 0x400 + (v - 0xDC00), 12)) else None
          case None => None
  }

  /** The characters up to a closing quote, which must end the text. */
  function ReadBody(t: Text): Option<Text> {
    if t == [QUOTE] then Some([])
    else match FirstChar(t)
      case None => None
      case Some((c, n)) =>
        match ReadBody(t[n..])
        case Some(rest) => Some([c] + rest)
        case None => None
  }

  function ReadString(t: Text): Option<Text> {
    if t == [] || t[0] != QUOTE then None else ReadBody(t[1..])
  }

  // ---------- what is written is read back ----------

  lemma FourDigits(u: int)
    requires 0 <= u
    ensures ((u / 0x1000 * 0x10 + u / 0x100 % 0x10) * 0x10 + u / 0x10 % 0x10) * 0x10 + u % 0x10 == u
  {
    Sixteenths(u);
    var tens := u / 0x10;
    var hundreds := tens / 0x10;
    assert u == tens * 0x10 + u % 0x10;
    assert tens == hundreds * 0x10 + tens % 0x10;
    assert hundreds == hundreds / 0x10 * 0x10 + hundreds % 0x10;
  }

  lemma Sixteenths(u: int)
    requires 0 <= u
    ensures u / 0x100 == u / 0x10 / 0x10 && u / 0x1000 == u / 0x10 / 0x10 / 0x10
  {
  }

  lemma UnicodeEscapeValue(u: int, ten: Scalar, rest: Text)
    requires 0 <= u < 0x10000 && ten in {0x41, 0x61}
    ensures CodeUnit(UnicodeEscape(u, ten) + rest) == Some(u)
    ensures (UnicodeEscape(u, ten) + rest)[6..] == rest
  {
    hide HexValue, HexDigit;
    FourDigits(u);
  }

  lemma FirstOfUnicodeEscape(u: int, ten: Scalar, rest: Text)
    requires 0 <= u < 0xD800 || 0xE000 <= u < 0x10000
    requires ten in {0x41, 0x61}
    ensures FirstChar(UnicodeEscape(u, ten) + rest) == Some((u, 6))
  {
    hide CodeUnit, HexDigit;
    UnicodeEscapeValue(u, ten, rest);
  }

  lemma FirstOfPair(c: Scalar, rest: Text)
    requires c >= 0x10000
    ensures FirstChar(Lower(Utf16(c)[0]) + Lower(Utf16(c)[1]) + rest) == Some((c, 12))
  {
    hide CodeUnit, HexDigit;
    var hi, lo := Utf16(c)[0], Utf16(c)[1];
    var t := Lower(hi) + Lower(lo) + rest;
    assert t == UnicodeEscape(hi, 0x61) + (UnicodeEscape(lo, 0x61) + rest);
    UnicodeEscapeValue(hi, 0x61, UnicodeEscape(lo, 0x61) + rest);
    UnicodeEscapeValue(lo, 0x61, rest);
  }

  /** Whatever the flags, the spelling of a character is read as that character. */
  lemma FirstOfEscapedChar(flags: bv64, c: Scalar, rest: Text)
    ensures FirstChar(EscapedChar(flags, c) + rest) == Some((c, |EscapedChar(flags, c)|))
  {
    hide IsSet, CodeUnit, HexDigit, Utf16;
    var e := EscapedChar(flags, c);
    if e == [c] || |e| == 2 {
    } else if c < 0x10000 {
      FirstOfUnicodeEscape(c, 0x61, rest);
      FirstOfUnicodeEscape(c, 0x41, rest);
    } else {
      FirstOfPair(c, rest);
    }
  }

  /** The characters that survive: the valid ones, and a substitute for each invalid unit if asked for. */
  function Survivors(flags: bv64, units: seq<Option<Scalar>>): Text {
    if units == [] then []
    else (match units[0]
      case Some(c) => [c]
      case None => if IsSet(flags, INVALID_UTF8_SUBSTITUTE) then [0xFFFD] else []) + Survivors(flags, units[1..])
  }

  lemma ReadBodyStep(e: Text, c: Scalar, t: Text)
    requires e != [] && FirstChar(e + t) == Some((c, |e|))
    ensures ReadBody(e + t) == match ReadBody(t) case Some(rest) => Some([c] + rest) case None => None
  {
    hide FirstChar;
    assert (e + t)[|e|..] == t;
    assert e + t != [QUOTE] by { FirstIsNoQuote(e + t); }
  }

  lemma FirstIsNoQuote(t: Text)
    requires FirstChar(t).Some?
    ensures t != [] && t[0] != QUOTE
  {
  }

  lemma {:induction false} UnitsReadBack(flags: bv64, units: seq<Option<Scalar>>)
    ensures ReadBody(EscapedUnits(flags, units) + [QUOTE]) == Some(Survivors(flags, units))
  {
    hide IsSet, FirstChar, EscapedChar, Lower;
    if units == [] {
      assert EscapedUnits(flags, units) + [QUOTE] == [QUOTE];
    } else {
      var e, t := EscapedUnit(flags, units[0]), EscapedUnits(flags, units[1..]) + [QUOTE];
      assert EscapedUnits(flags, units) + [QUOTE] == e + t;
      UnitsReadBack(flags, units[1..]);
      if units[0].Some? || IsSet(flags, INVALID_UTF8_SUBSTITUTE) {
        var c := if units[0].Some? then units[0].value else 0xFFFD;
        UnitIsRead(flags, units[0], c, t);
        ReadBodyStep(e, c, t);
      } else {
        assert e == [] && e + t == t;
        var none: Text := [];
        assert Survivors(flags, units) == none + Survivors(flags, units[1..]) == Survivors(flags, units[1..]);
      }
    }
  }

  lemma UnitIsRead(flags: bv64, unit: Option<Scalar>, c: Scalar, t: Text)
    requires unit == Some(c) || (unit.None? && c == 0xFFFD && IsSet(flags, INVALID_UTF8_SUBSTITUTE))
    ensures EscapedUnit(flags, unit) != []
    ensures FirstChar(EscapedUnit(flags, unit) + t) == Some((c, |EscapedUnit(flags, unit)|))
  {
    hide IsSet, EscapedChar;
    FirstOfEscapedChar(flags, c, t);
    FirstOfUnicodeEscape(0xFFFD, 0x61, t);
  }

  /** Reading the encoder's output gives back the units of any stored string, for every flag word. */
  lemma JsonReadsBack(s: Text, flags: bv64)
    ensures ReadString([QUOTE] + EscapedUnits(flags, UnitsOf(s)) + [QUOTE]) == Some(Survivors(flags, UnitsOf(s)))
  {
    hide EscapedUnits, UnitsOf, Survivors, ReadBody;
    var body := EscapedUnits(flags, UnitsOf(s)) + [QUOTE];
    UnitsReadBack(flags, UnitsOf(s));
    assert [QUOTE] + EscapedUnits(flags, UnitsOf(s)) + [QUOTE] == [QUOTE] + body;
    assert ([QUOTE] + body)[1..] == body;
  }

  lemma {:induction false} SurvivorsOfSomes(flags: bv64, text: Text)
    ensures Survivors(flags, Somes(text)) == text
  {
    hide IsSet;
    if text != [] {
      assert Somes(text)[1..] == Somes(text[1..]);
      SurvivorsOfSomes(flags, text[1..]);
    }
  }

  /** For a string whose bytes are valid UTF-8, escape-range characters included, reading gives back
      exactly its characters. */
  lemma JsonReadsTextBack(s: Text, flags: bv64, text: Text)
    requires PhpBytes(s) == EncodeAll(text)
    ensures ReadString([QUOTE] + EscapedUnits(flags, UnitsOf(s)) + [QUOTE]) == Some(text)
  {
    hide EscapedUnits, ReadString;
    JsonReadsBack(s, flags);
    UnitsOfUtf8(text);
    SurvivorsOfSomes(flags, text);
  }

  predicate IsAscii(t: Text) {
    forall i :: 0 <= i < |t| ==> t[i] < 0x80
  }

  /** The output is ASCII unless the flag for unescaped Unicode is set. */
  lemma {:induction false} JsonIsAscii(flags: bv64, units: seq<Option<Scalar>>)
    requires !IsSet(flags, UNESCAPED_UNICODE)
    ensures IsAscii(EscapedUnits(flags, units))
  {
    hide IsSet, EscapedUnit;
    if units != [] {
      UnitIsAscii(flags, units[0]);
      JsonIsAscii(flags, units[1..]);
    }
  }

  lemma UnitIsAscii(flags: bv64, unit: Option<Scalar>)
    requires !IsSet(flags, UNESCAPED_UNICODE)
    ensures IsAscii(EscapedUnit(flags, unit))
  {
    hide IsSet, HexDigit, HexValue, UnicodeEscape, Utf16;
  }
}
