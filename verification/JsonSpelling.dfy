/** How `json_string` spells each unit, and what its output never holds; the flags are numbers here. */
module JsonSpelling {
  import opened Common
  import opened Utf8
  import opened StoredStrings
  import opened Json

  /** What `json_string` writes for the units of a string. */
  function Written(flags: bv64, units: seq<Option<Scalar>>): Text {
    [0x22] + EscapedUnits(flags, units) + [0x22]
  }

  // ---------- the spelling of one unit ----------

  /** Characters that one of the four HEX flags makes an escape in upper case. */
  predicate HexForced(flags: bv64, c: Scalar) {
    || (flags & 1 != 0 && c in {0x3C, 0x3E})
    || (flags & 2 != 0 && c == 0x26)
    || (flags & 4 != 0 && c == 0x27)
    || (flags & 8 != 0 && c == 0x22)
  }

  /** Characters with an escape of two characters, the slash as long as no flag spares it. */
  predicate HasShort(flags: bv64, c: Scalar) {
    c in {0x22, 0x5C, 0x08, 0x0C, 0x0A, 0x0D, 0x09} || (c == 0x2F && flags & 64 == 0)
  }

  /** Characters left to an escape in lower case: the other controls, the line terminators, and what is not ASCII. */
  predicate CodeForced(flags: bv64, c: Scalar) {
    || c < 0x20
    || (c in {0x2028, 0x2029} && flags & 2048 == 0)
    || (c >= 0x80 && flags & 256 == 0)
  }

  /** `\u` and four digits for `u`, the letters among them in one case. */
  predicate SpellsCode(e: Text, u: int, upper: bool) {
    && |e| == 6 && CodeUnit(e) == Some(u)
    && forall i :: 2 <= i < 6 ==> 0x30 <= e[i] <= 0x39 || (if upper then 0x41 <= e[i] <= 0x46 else 0x61 <= e[i] <= 0x66)
  }

  /** The letter of an escape of two characters. */
  function ShortLetter(c: Scalar): char {
    match c
    case 0x08 => 'b'
    case 0x0C => 'f'
    case 0x0A => 'n'
    case 0x0D => 'r'
    case 0x09 => 't'
    case 0x22 => '"'
    case 0x5C => '\\'
    case _ => '/'
  }

  /** Every character takes the first spelling that fits: forced upper-case hex, a short escape, lower-case hex, or
      itself. */
  lemma CharSpelling(flags: bv64, c: Scalar)
    ensures var e := EscapedUnit(flags, Some(c));
      if HexForced(flags, c) then SpellsCode(e, c, true)
      else if HasShort(flags, c) then e == [0x5C, ShortLetter(c) as int]
      else if !CodeForced(flags, c) then e == [c]
      else if c < 0x10000 then SpellsCode(e, c, false)
      else
        && |e| == 12
        && SpellsCode(e[..6], 0xD800 + (c - 0x10000) / 0x400, false)
        && SpellsCode(e[6..], 0xDC00 + (c - 0x10000) % 0x400, false)
  {
    hide UnicodeEscape, SpellsCode;
    if c < 0x10000 {
      CodeSpelled(c, 0x41);
      CodeSpelled(c, 0x61);
    } else {
      CodeSpelled(Utf16(c)[0], 0x61);
      CodeSpelled(Utf16(c)[1], 0x61);
    }
  }

  lemma CodeSpelled(u: int, ten: Scalar)
    requires 0 <= u < 0x10000 && ten in {0x41, 0x61}
    ensures SpellsCode(UnicodeEscape(u, ten), u, ten == 0x41)
  {
    var e := UnicodeEscape(u, ten);
    UnicodeEscapeValue(u, ten, []);
    assert e + [] == e;
  }

  /** An invalid unit is dropped, or written as U+FFFD: by code in lower case, or as itself. */
  lemma InvalidSpelling(flags: bv64)
    ensures var e := EscapedUnit(flags, None);
      if flags & 0x200000 == 0 then e == []
      else if flags & 256 == 0 then SpellsCode(e, 0xFFFD, false)
      else e == [0xFFFD]
  {
    hide UnicodeEscape, SpellsCode;
    CodeSpelled(0xFFFD, 0x61);
  }

  // ---------- and it stands where the unit does ----------

  lemma {:induction false} UnitsConcat(flags: bv64, us: seq<Option<Scalar>>, vs: seq<Option<Scalar>>)
    ensures EscapedUnits(flags, us + vs) == EscapedUnits(flags, us) + EscapedUnits(flags, vs)
  {
    hide EscapedUnit;
    if us == [] {
      assert us + vs == vs;
    } else {
      assert (us + vs)[1..] == us[1..] + vs;
      UnitsConcat(flags, us[1..], vs);
    }
  }

  lemma UnitStands(flags: bv64, before: seq<Option<Scalar>>, unit: Option<Scalar>, after: seq<Option<Scalar>>)
    ensures Written(flags, before + [unit] + after) ==
            [0x22] + EscapedUnits(flags, before) + EscapedUnit(flags, unit) + EscapedUnits(flags, after) + [0x22]
  {
    hide EscapedUnit, EscapedUnits;
    UnitsConcat(flags, before + [unit], after);
    UnitsConcat(flags, before, [unit]);
    UnitAlone(flags, unit);
  }

  lemma UnitAlone(flags: bv64, unit: Option<Scalar>)
    ensures EscapedUnits(flags, [unit]) == EscapedUnit(flags, unit)
  {
    hide EscapedUnit;
    assert [unit][1..] == [];
  }

  /** A character that no flag and no rule names stands as itself between what is written for its neighbours. */
  lemma StandsAsItself(flags: bv64, before: seq<Option<Scalar>>, c: Scalar, after: seq<Option<Scalar>>)
    requires !HexForced(flags, c) && !HasShort(flags, c) && !CodeForced(flags, c)
    ensures Written(flags, before + [Some(c)] + after) ==
            [0x22] + EscapedUnits(flags, before) + [c] + EscapedUnits(flags, after) + [0x22]
  {
    hide EscapedUnit, EscapedUnits;
    UnitStands(flags, before, Some(c), after);
    CharSpelling(flags, c);
  }

  // ---------- what the output never holds ----------

  lemma {:induction false} NeverHolds(flags: bv64, units: seq<Option<Scalar>>, x: Scalar)
    requires forall unit: Option<Scalar> :: x !in EscapedUnit(flags, unit)
    ensures x !in EscapedUnits(flags, units)
  {
    hide EscapedUnit;
    if units != [] {
      NeverHolds(flags, units[1..], x);
    }
  }

  lemma CodeIsPlain(e: Text, u: int, upper: bool, x: Scalar)
    requires SpellsCode(e, u, upper) && x in e
    ensures x in {0x5C, 0x75} || 0x30 <= x <= 0x39 || 0x41 <= x <= 0x46 || 0x61 <= x <= 0x66
  {
    hide HexValue;
  }

  /** A character stands in the spelling of another one only if it is of the characters escapes are made of. */
  lemma SpellingHolds(flags: bv64, unit: Option<Scalar>, x: Scalar)
    requires x in EscapedUnit(flags, unit) && !(0x30 <= x <= 0x39 || 0x41 <= x <= 0x5A || 0x61 <= x <= 0x7A)
    ensures unit == Some(x) || x == 0x5C || (x == 0xFFFD && unit.None?)
    ensures unit == Some(x) ==> !HexForced(flags, x) && (x in {0x22, 0x5C, 0x2F} || !(CodeForced(flags, x)))
  {
    hide EscapedUnit, SpellsCode;
    if unit.None? {
      InvalidSpelling(flags);
      if flags & 0x200000 != 0 && flags & 256 == 0 { CodeIsPlain(EscapedUnit(flags, unit), 0xFFFD, false, x); }
    } else {
      var c, e := unit.value, EscapedUnit(flags, unit);
      CharSpelling(flags, c);
      if HexForced(flags, c) {
        CodeIsPlain(e, c, true, x);
      } else if !HasShort(flags, c) && CodeForced(flags, c) {
        if c < 0x10000 {
          CodeIsPlain(e, c, false, x);
        } else {
          var code: int := c;
          var above := code - 0x10000;
          assert e == e[..6] + e[6..];
          if x in e[..6] {
            CodeIsPlain(e[..6], 0xD800 + above / 0x400, false, x);
          } else {
            CodeIsPlain(e[6..], 0xDC00 + above % 0x400, false, x);
          }
        }
      }
    }
  }

  /** A character that a HEX flag forces, or a line terminator without its flag, is nowhere in the output; of quotes
      only the two that enclose it are left. */
  lemma FlagsHide(flags: bv64, units: seq<Option<Scalar>>)
    ensures flags & 1 != 0 ==> 0x3C !in Written(flags, units) && 0x3E !in Written(flags, units)
    ensures flags & 2 != 0 ==> 0x26 !in Written(flags, units)
    ensures flags & 4 != 0 ==> 0x27 !in Written(flags, units)
    ensures flags & 8 != 0 ==> 0x22 !in Written(flags, units)[1..|Written(flags, units)| - 1]
    ensures flags & 2048 == 0 ==> 0x2028 !in Written(flags, units) && 0x2029 !in Written(flags, units)
  {
    hide EscapedUnits;
    forall x: Scalar | HexForced(flags, x) || (x in {0x2028, 0x2029} && flags & 2048 == 0)
      ensures x !in EscapedUnits(flags, units)
    {
      ForcedIsHidden(flags, units, x);
    }
    assert Written(flags, units)[1..|Written(flags, units)| - 1] == EscapedUnits(flags, units);
  }

  lemma ForcedIsHidden(flags: bv64, units: seq<Option<Scalar>>, x: Scalar)
    requires HexForced(flags, x) || (x in {0x2028, 0x2029} && flags & 2048 == 0)
    ensures x !in EscapedUnits(flags, units)
  {
    hide EscapedUnit;
    forall unit: Option<Scalar> ensures x !in EscapedUnit(flags, unit) {
      if x in EscapedUnit(flags, unit) {
        SpellingHolds(flags, unit, x);
      }
    }
    NeverHolds(flags, units, x);
  }

  // ---------- slashes ----------

  /** Every slash stands behind a backslash. */
  predicate IsGuarded(t: Text) {
    forall i :: 0 <= i < |t| && t[i] == 0x2F ==> i > 0 && t[i - 1] == 0x5C
  }

  lemma GuardedConcat(t: Text, u: Text)
    requires IsGuarded(t) && IsGuarded(u)
    ensures IsGuarded(t + u)
  {
    forall i | 0 <= i < |t + u| && (t + u)[i] == 0x2F ensures i > 0 && (t + u)[i - 1] == 0x5C {
      assert i >= |t| ==> u[i - |t|] == 0x2F;
      assert i < |t| ==> t[i] == 0x2F;
    }
  }

  lemma UnitIsGuarded(flags: bv64, unit: Option<Scalar>)
    requires flags & 64 == 0
    ensures IsGuarded(EscapedUnit(flags, unit))
  {
    hide EscapedUnit;
    var e := EscapedUnit(flags, unit);
    if 0x2F in e {
      SpellingHolds(flags, unit, 0x2F);
      CharSpelling(flags, 0x2F);
    }
  }

  lemma {:induction false} UnitsAreGuarded(flags: bv64, units: seq<Option<Scalar>>)
    requires flags & 64 == 0
    ensures IsGuarded(EscapedUnits(flags, units))
  {
    hide EscapedUnit, IsGuarded;
    if units == [] {
      assert IsGuarded([]) by { NoSlash([]); }
    } else {
      UnitIsGuarded(flags, units[0]);
      UnitsAreGuarded(flags, units[1..]);
      GuardedConcat(EscapedUnit(flags, units[0]), EscapedUnits(flags, units[1..]));
    }
  }

  lemma NoSlash(t: Text)
    requires 0x2F !in t
    ensures IsGuarded(t)
  {
  }

  /** Without JSON_UNESCAPED_SLASHES no slash of the output stands without a backslash. */
  lemma SlashesAreEscaped(flags: bv64, units: seq<Option<Scalar>>)
    requires flags & 64 == 0
    ensures IsGuarded(Written(flags, units))
  {
    hide EscapedUnits, IsGuarded;
    UnitsAreGuarded(flags, units);
    NoSlash([0x22]);
    GuardedConcat([0x22], EscapedUnits(flags, units));
    GuardedConcat([0x22] + EscapedUnits(flags, units), [0x22]);
  }
}
