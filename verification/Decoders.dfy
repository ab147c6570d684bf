/** The two ways PHP splits a byte string into characters: mbstring's and ext/standard's. */
module Decoders {
  import opened Common
  import opened Utf8
  import opened StoredStrings

  /** One character of a string, or a run of bytes that is not one. */
  datatype Unit = Char(c: Scalar) | Invalid(bytes: seq<Byte>) {
    function Bytes(): seq<Byte> {
      match this
      case Char(c) => Encode(c)
      case Invalid(bytes) => bytes
    }
  }

  function Join(units: seq<Unit>): seq<Byte> {
    if units == [] then [] else units[0].Bytes() + Join(units[1..])
  }

  /** mbstring: an invalid unit is a maximal subpart. */
  function MbUnits(b: seq<Byte>): seq<Unit> {
    if b == [] then []
    else if CharLen(b) == 0 then [Invalid(b[..InvalidLen(b)])] + MbUnits(b[InvalidLen(b)..])
    else [Char(Decode(b))] + MbUnits(b[CharLen(b)..])
  }

  // ---------- php_next_utf8_char ----------

  predicate IsLead(c: Byte) {
    c < 0x80 || 0xC2 <= c <= 0xF4
  }

  /** The length of a broken `n`-byte sequence, looking from index `i` for a byte that starts a character. */
  function BrokenLen(b: seq<Byte>, n: nat, i: nat): nat
    decreases n - i
  {
    if i >= n then n
    else if i >= |b| || IsLead(b[i]) then i
    else BrokenLen(b, n, i + 1)
  }

  /** The code point with leading bits `bits` and six more from each byte of `trail`. */
  function CodePoint(bits: int, trail: seq<Byte>): int {
    if trail == [] then bits
    else CodePoint(bits, trail[..|trail| - 1]) * 0x40 + trail[|trail| - 1] % 0x40
  }

  /** `char::from_u32`. */
  function ToScalar(cp: int): Option<Scalar> {
    if 0 <= cp < 0xD800 || 0xE000 <= cp <= 0x10FFFF then Some(cp) else None
  }

  function DecodeSequence(b: seq<Byte>, n: nat, bits: int, min: int): (Option<Scalar>, nat)
    requires b != [] && n >= 1
  {
    if !(n <= |b| && AllTrail(b[1..n])) then (None, BrokenLen(b, n, 1))
    else
      var cp := CodePoint(bits, b[1..n]);
      if cp < min then (None, n) else (ToScalar(cp), n)
  }

  /** One step of ext/standard's decoder: the character, if the unit is one, and the unit's length. */
  function PhpNext(b: seq<Byte>): (Option<Scalar>, nat)
    requires b != []
  {
    var c := b[0];
    if c < 0x80 then (Some(c), 1)
    else if 0xC2 <= c <= 0xDF then DecodeSequence(b, 2, c % 0x20, 0x80)
    else if 0xE0 <= c <= 0xEF then DecodeSequence(b, 3, c % 0x10, 0x800)
    else if 0xF0 <= c <= 0xF4 then DecodeSequence(b, 4, c % 0x08, 0x10000)
    else (None, 1)
  }

  lemma CodePointUnfolds(bits: int, trail: seq<Byte>)
    requires 1 <= |trail| <= 3 && AllTrail(trail)
    ensures |trail| == 1 ==> CodePoint(bits, trail) == SixMore(bits, trail[0])
    ensures |trail| == 2 ==> CodePoint(bits, trail) == SixMore(SixMore(bits, trail[0]), trail[1])
    ensures |trail| == 3 ==> CodePoint(bits, trail) ==
                             SixMore(SixMore(SixMore(bits, trail[0]), trail[1]), trail[2])
  {
    if |trail| > 1 {
      CodePointUnfolds(bits, trail[..|trail| - 1]);
    }
  }

  lemma BrokenLenStops(b: seq<Byte>, n: nat, i: nat)
    requires 1 <= i <= |b| && i <= n
    ensures var k := BrokenLen(b, n, i);
      && i <= k <= n && k <= |b|
      && (forall j :: i <= j < k ==> !IsLead(b[j]))
      && (k < n ==> k == |b| || IsLead(b[k]))
    decreases n - i
  {
    if i < n && i < |b| && !IsLead(b[i]) {
      BrokenLenStops(b, n, i + 1);
    }
  }

  // The code point alone tells the well-formed sequences from the others.

  lemma TwoBytes(b: seq<Byte>)
    requires b != [] && SequenceLength(b[0]) == 2 <= |b| && AllTrail(b[1..2])
    ensures CharLen(b) > 0 ==> PhpNext(b) == (Some(Decode(b)), 2)
    ensures CharLen(b) == 0 ==> PhpNext(b) == (None, 2)
  {
    var trail := b[1..2];
    assert trail[0] == b[1];
    CodePointUnfolds(b[0] % 0x20, trail);
  }

  lemma ThreeBytes(b: seq<Byte>)
    requires b != [] && SequenceLength(b[0]) == 3 <= |b| && AllTrail(b[1..3])
    ensures CharLen(b) > 0 ==> PhpNext(b) == (Some(Decode(b)), 3)
    ensures CharLen(b) == 0 ==> PhpNext(b) == (None, 3)
  {
    var trail := b[1..3];
    assert trail[0] == b[1];
    assert trail[1] == b[2];
    CodePointUnfolds(b[0] % 0x10, trail);
  }

  lemma FourBytes(b: seq<Byte>)
    requires b != [] && SequenceLength(b[0]) == 4 <= |b| && AllTrail(b[1..4])
    ensures CharLen(b) > 0 ==> PhpNext(b) == (Some(Decode(b)), 4)
    ensures CharLen(b) == 0 ==> PhpNext(b) == (None, 4)
  {
    var trail := b[1..4];
    assert trail[0] == b[1];
    assert trail[1] == b[2];
    assert trail[2] == b[3];
    CodePointUnfolds(b[0] % 0x08, trail);
  }

  /** The decoder's answer: a character exactly where a well-formed one stands. */
  lemma PhpNextDecodes(b: seq<Byte>)
    requires b != []
    ensures CharLen(b) > 0 ==> PhpNext(b) == (Some(Decode(b)), CharLen(b))
    ensures CharLen(b) == 0 ==> PhpNext(b).0 == None
  {
    var n := SequenceLength(b[0]);
    if n >= 2 {
      if n <= |b| && AllTrail(b[1..n]) {
        if n == 2 { TwoBytes(b); } else if n == 3 { ThreeBytes(b); } else { FourBytes(b); }
      } else {
        assert CharLen(b) == 0 by {
          if CharLen(b) > 0 { assert AllTrail(b[1..n]); }
        }
      }
    }
  }

  /** The bytes that start some character. */
  lemma LeadStartsCharacter(c: Byte)
    ensures IsLead(c) <==> exists rest: seq<Byte> :: CharLen([c] + rest) > 0
  {
    if IsLead(c) {
      var rest: seq<Byte> := [FirstSecond(c), 0x80, 0x80];
      assert CharLen([c] + rest) > 0;
    }
  }

  /** The least second byte of the characters that begin with `c`. */
  function FirstSecond(c: Byte): Byte {
    if c == 0xE0 then 0xA0 else if c == 0xF0 then 0x90 else 0x80
  }

  /** An invalid unit of the decoder: one lead or stray byte, then bytes that start no character, up to the length
      that the first byte announces, the end, or a byte that does start one. */
  lemma PhpNextInvalid(b: seq<Byte>)
    requires b != [] && CharLen(b) == 0
    ensures var n := PhpNext(b).1;
      && InvalidLen(b) <= n <= |b| && (forall j :: 1 <= j < n ==> !IsLead(b[j]))
      && n <= (if SequenceLength(b[0]) == 0 then 1 else SequenceLength(b[0]))
      && (n < SequenceLength(b[0]) ==> n == |b| || IsLead(b[n]))
  {
    var n := SequenceLength(b[0]);
    if n >= 2 {
      BrokenLenStops(b, n, 1);
      if n <= |b| && AllTrail(b[1..n]) {
        forall j | 1 <= j < n ensures !IsLead(b[j]) { assert b[j] == b[1..n][j - 1]; }
      } else {
        var k := BrokenLen(b, n, 1);
      }
    }
  }

  function PhpUnits(b: seq<Byte>): seq<Unit> {
    if b == [] then []
    else
      var (c, n) := PhpNext(b);
      PhpNextLength(b);
      [match c case Some(c) => Char(c) case None => Invalid(b[..n])] + PhpUnits(b[n..])
  }

  lemma PhpNextLength(b: seq<Byte>)
    requires b != []
    ensures 1 <= PhpNext(b).1 <= |b|
  {
    PhpNextDecodes(b);
    if CharLen(b) == 0 {
      PhpNextInvalid(b);
    }
  }

  // ---------- tiling and agreement ----------

  predicate AllInvalid(units: seq<Unit>) {
    forall j :: 0 <= j < |units| ==> units[j].Invalid?
  }

  /** A run of bytes that start no character is one mbstring unit each. */
  function Strays(b: seq<Byte>): seq<Unit> {
    if b == [] then [] else [Invalid([b[0]])] + Strays(b[1..])
  }

  lemma {:induction false} MbUnitsOfStrays(u: seq<Byte>, v: seq<Byte>)
    requires forall j :: 0 <= j < |u| ==> !IsLead(u[j])
    ensures MbUnits(u + v) == Strays(u) + MbUnits(v)
  {
    hide MbUnits, CharLen, InvalidLen, IsLead;
    if u == [] {
      assert u + v == v;
    } else {
      assert (u + v)[1..] == u[1..] + v;
      assert (u + v)[..1] == [u[0]];
      StrayAlone(u + v);
      MbUnitsStep(u + v);
      MbUnitsOfStrays(u[1..], v);
    }
  }

  lemma StrayAlone(b: seq<Byte>)
    requires b != [] && !IsLead(b[0])
    ensures CharLen(b) == 0 && InvalidLen(b) == 1
  {
  }

  lemma {:induction false} StraysJoin(u: seq<Byte>)
    ensures Join(Strays(u)) == u && AllInvalid(Strays(u))
  {
    if u != [] {
      StraysJoin(u[1..]);
    }
  }

  lemma JoinCons(u: Unit, rest: seq<Unit>)
    ensures Join([u] + rest) == u.Bytes() + Join(rest)
  {
  }

  lemma MbUnitsStep(b: seq<Byte>)
    requires b != [] && CharLen(b) == 0
    ensures MbUnits(b) == [Invalid(b[..InvalidLen(b)])] + MbUnits(b[InvalidLen(b)..])
  {
  }

  lemma MbFirst(b: seq<Byte>) returns (u: Unit, n: nat)
    requires b != []
    ensures 1 <= n <= |b| && |u.Bytes()| == n && forall j :: 1 <= j < n ==> !IsLead(b[j])
    ensures u == if CharLen(b) > 0 then Char(Decode(b)) else Invalid(b[..n])
    ensures MbUnits(b) == [u] + MbUnits(b[n..])
  {
    hide InvalidLen, Encode, Decode;
    if CharLen(b) > 0 {
      EncodeDecode(b);
      u, n := Char(Decode(b)), CharLen(b);
    } else {
      u, n := Invalid(b[..InvalidLen(b)]), InvalidLen(b);
    }
  }

  lemma PhpFirst(b: seq<Byte>) returns (u: Unit, n: nat)
    requires b != []
    ensures 1 <= n <= |b| && |u.Bytes()| == n && forall j :: 1 <= j < n ==> !IsLead(b[j])
    ensures u == if CharLen(b) > 0 then Char(Decode(b)) else Invalid(b[..n])
    ensures PhpUnits(b) == [u] + PhpUnits(b[n..])
  {
    hide PhpNext, InvalidLen, Encode, Decode;
    PhpNextLength(b);
    PhpNextDecodes(b);
    n := PhpNext(b).1;
    if CharLen(b) > 0 {
      EncodeDecode(b);
      u := Char(Decode(b));
    } else {
      PhpNextInvalid(b);
      u := Invalid(b[..n]);
    }
  }

  /** An invalid unit of ext/standard is one or more consecutive invalid units of mbstring. */
  lemma PhpInvalidGroup(b: seq<Byte>) returns (group: seq<Unit>)
    requires b != [] && CharLen(b) == 0
    ensures group != [] && AllInvalid(group)
    ensures Join(group) == b[..PhpNext(b).1]
    ensures MbUnits(b) == group + MbUnits(b[PhpNext(b).1..])
  {
    hide PhpNext, CharLen, InvalidLen, Strays, MbUnits, Join;
    PhpNextInvalid(b);
    var m, n := InvalidLen(b), PhpNext(b).1;
    var u, v := b[m..n], b[n..];
    MbUnitsStep(b);
    assert b[m..] == u + v;
    MbUnitsOfStrays(u, v);
    StraysJoin(u);
    JoinCons(Invalid(b[..m]), Strays(u));
    assert b[..n] == b[..m] + u;
    group := [Invalid(b[..m])] + Strays(u);
  }

  /** Both decoders tile the input. */
  lemma {:induction false} UnitsTile(b: seq<Byte>)
    ensures Join(MbUnits(b)) == b
    ensures Join(PhpUnits(b)) == b
    decreases |b|
  {
    hide CharLen, Decode, Encode, InvalidLen, PhpNext;
    if b != [] {
      var u, m := MbFirst(b);
      UnitsTile(b[m..]);
      TileStep(b, m, u, MbUnits(b[m..]));
      var v, n := PhpFirst(b);
      UnitsTile(b[n..]);
      TileStep(b, n, v, PhpUnits(b[n..]));
    }
  }

  lemma TileStep(b: seq<Byte>, n: nat, u: Unit, rest: seq<Unit>)
    requires 1 <= n <= |b| && |u.Bytes()| == n
    requires u == if CharLen(b) > 0 then Char(Decode(b)) else Invalid(b[..n])
    requires Join(rest) == b[n..]
    ensures Join([u] + rest) == b
  {
    hide CharLen, Decode, Encode, Join;
    if CharLen(b) > 0 {
      EncodeDecode(b);
    }
    JoinCons(u, rest);
    assert b == b[..n] + b[n..];
  }

  /** `php` regroups `mb`: the characters are the same, and each invalid unit of `php` is one or
      more consecutive invalid units of `mb`. */
  ghost predicate Regroups(php: seq<Unit>, mb: seq<Unit>) {
    if php == [] then mb == []
    else match php[0]
      case Char(c) => mb != [] && mb[0] == Char(c) && Regroups(php[1..], mb[1..])
      case Invalid(bytes) => exists group: seq<Unit>, rest: seq<Unit> ::
          && mb == group + rest && group != []
          && AllInvalid(group)
          && Join(group) == bytes
          && Regroups(php[1..], rest)
  }

  /** The decoders agree on every byte string, up to the grouping of invalid bytes. */
  lemma {:induction false} DecodersAgree(b: seq<Byte>)
    ensures Regroups(PhpUnits(b), MbUnits(b))
  {
    hide PhpNext, CharLen, InvalidLen, Decode, Encode;
    if b != [] {
      PhpNextLength(b);
      PhpNextDecodes(b);
      var php, rest := PhpUnits(b), b[PhpNext(b).1..];
      DecodersAgree(rest);
      assert php[1..] == PhpUnits(rest);
      if CharLen(b) == 0 {
        var group := PhpInvalidGroup(b);
        assert MbUnits(b) == group + MbUnits(rest);
      } else {
        assert MbUnits(b)[1..] == MbUnits(rest);
      }
    }
  }

  /** Whether `units`, laid out from byte `at`, hold the character `c` at byte `p`. */
  ghost predicate HoldsAt(units: seq<Unit>, at: nat, p: nat, c: Scalar) {
    units != [] && ((p == at && units[0] == Char(c)) || HoldsAt(units[1..], at + |units[0].Bytes()|, p, c))
  }

  /** Whether a well-formed character `c` starts at byte `p`, judging from the bytes there alone. */
  ghost predicate StartsAt(b: seq<Byte>, p: int, c: Scalar) {
    0 <= p < |b| && CharLen(b[p..]) > 0 && Decode(b[p..]) == c
  }

  lemma StartsAtShift(b: seq<Byte>, n: nat, p: int, c: Scalar)
    requires n <= |b|
    ensures p >= n ==> (StartsAt(b, p, c) <==> StartsAt(b[n..], p - n, c))
  {
    if n <= p < |b| {
      assert b[n..][p - n..] == b[p..];
    }
  }

  lemma StartsNowhereInside(b: seq<Byte>, n: nat, p: int, c: Scalar)
    requires n <= |b| && forall j :: 1 <= j < n ==> !IsLead(b[j])
    ensures 1 <= p < n ==> !StartsAt(b, p, c)
  {
    if 1 <= p < n {
      assert b[p..][0] == b[p];
    }
  }

  lemma {:induction false} HeldFrom(units: seq<Unit>, at: nat, p: nat, c: Scalar)
    ensures HoldsAt(units, at, p, c) ==> p >= at
  {
    if units != [] {
      HeldFrom(units[1..], at + |units[0].Bytes()|, p, c);
    }
  }

  /** One unit more: it holds a character exactly where one starts if the rest does. */
  lemma SynchronisedStep(b: seq<Byte>, n: nat, u: Unit, rest: seq<Unit>, at: nat, p: nat, c: Scalar)
    requires 1 <= n <= |b| && |u.Bytes()| == n && forall j :: 1 <= j < n ==> !IsLead(b[j])
    requires u == (if CharLen(b) > 0 then Char(Decode(b)) else Invalid(b[..n]))
    requires HoldsAt(rest, at + n, p, c) <==> StartsAt(b[n..], p - (at + n), c)
    ensures HoldsAt([u] + rest, at, p, c) <==> StartsAt(b, p - at, c)
  {
    hide CharLen, Decode, Encode;
    StartsAtShift(b, n, p - at, c);
    StartsNowhereInside(b, n, p - at, c);
    assert b[0..] == b;
    HeldFrom(rest, at + n, p, c);
  }

  lemma NothingHeld(at: nat, p: nat, c: Scalar)
    ensures MbUnits([]) == [] && PhpUnits([]) == []
    ensures !HoldsAt([], at, p, c) && !StartsAt([], p - at, c)
  {
  }

  /** mbstring finds a character exactly where one starts. */
  lemma {:induction false} MbUnitsSynchronised(b: seq<Byte>, at: nat, p: nat, c: Scalar)
    ensures HoldsAt(MbUnits(b), at, p, c) <==> StartsAt(b, p - at, c)
    decreases |b|
  {
    hide CharLen, Decode, Encode, InvalidLen, MbUnits, HoldsAt, StartsAt;
    if b == [] {
      NothingHeld(at, p, c);
    } else {
      var u, n := MbFirst(b);
      MbUnitsSynchronised(b[n..], at + n, p, c);
      SynchronisedStep(b, n, u, MbUnits(b[n..]), at, p, c);
    }
  }

  /** So does ext/standard: the two decoders see the same characters at the same bytes. */
  lemma {:induction false} PhpUnitsSynchronised(b: seq<Byte>, at: nat, p: nat, c: Scalar)
    ensures HoldsAt(PhpUnits(b), at, p, c) <==> StartsAt(b, p - at, c)
    decreases |b|
  {
    hide CharLen, Decode, Encode, InvalidLen, PhpNext, PhpUnits, HoldsAt, StartsAt;
    if b == [] {
      NothingHeld(at, p, c);
    } else {
      var u, n := PhpFirst(b);
      PhpUnitsSynchronised(b[n..], at + n, p, c);
      SynchronisedStep(b, n, u, PhpUnits(b[n..]), at, p, c);
    }
  }

  // ---------- the stored form of a unit ----------

  function StoredUnit(u: Unit): Text {
    match u
    case Char(c) => StoredText([c])
    case Invalid(bytes) => Stored(bytes)
  }

  function StoredUnits(units: seq<Unit>): Text {
    if units == [] then [] else StoredUnit(units[0]) + StoredUnits(units[1..])
  }

  lemma StoredUnitStep(b: seq<Byte>, n: nat, u: Unit)
    requires 1 <= n <= |b| && |u.Bytes()| == n && forall j :: 1 <= j < n ==> !IsLead(b[j])
    requires u == if CharLen(b) > 0 then Char(Decode(b)) else Invalid(b[..n])
    ensures Stored(b) == StoredUnit(u) + Stored(b[n..])
  {
    hide CharLen, Decode, Encode, IsLead, Stored, StoredText;
    if CharLen(b) > 0 {
      EncodeDecode(b);
      StoredFirstChar(b, n);
    } else {
      assert b == b[..n] + b[n..];
      StoredStrays(b[..n], b[n..]);
    }
  }

  lemma StoredFirstChar(b: seq<Byte>, n: nat)
    requires 0 < CharLen(b) == n <= |b|
    ensures Stored(b) == StoredText([Decode(b)]) + Stored(b[n..])
  {
    hide CharLen, Decode, Stored, StoredText, Escapes, StoredChar;
    assert b == b[..n] + b[n..];
    StoredStep(b[..n], b[n..]);
    StoredOneChar(Decode(b));
  }

  lemma StoredStrays(h: seq<Byte>, rest: seq<Byte>)
    requires h != [] && CharLen(h + rest) == 0 && forall j :: 1 <= j < |h| ==> !IsLead((h + rest)[j])
    ensures Stored(h + rest) == Stored(h) + Stored(rest)
  {
    hide CharLen, IsLead, Stored, Merges;
    NoMergeInStrays(h, rest);
    StoredSplit(h, rest);
  }

  lemma StoredOneChar(c: Scalar)
    ensures StoredText([c]) == StoredChar(c)
  {
    assert [c][1..] == [] && StoredChar(c) + [] == StoredChar(c);
  }

  /** No character reaches past a run of bytes of which only the first could start one, and does not. */
  lemma NoMergeInStrays(h: seq<Byte>, rest: seq<Byte>)
    requires h != [] && CharLen(h + rest) == 0 && forall j :: 1 <= j < |h| ==> !IsLead((h + rest)[j])
    ensures !Merges(h + rest, |h|)
  {
    var b := h + rest;
    forall i | 0 <= i < |h| ensures CharLen(b[i..]) == 0 {
      assert if i == 0 then b[i..] == b else b[i..][0] == b[i];
    }
  }

  /** The units' stored forms make up the stored form of the string, for either decoder. */
  lemma {:induction false} StoredByUnits(b: seq<Byte>)
    ensures StoredUnits(MbUnits(b)) == Stored(b)
    ensures StoredUnits(PhpUnits(b)) == Stored(b)
    decreases |b|
  {
    hide StoredUnit, CharLen, Decode, Encode, InvalidLen, PhpNext;
    if b != [] {
      var u, m := MbFirst(b);
      var v, n := PhpFirst(b);
      StoredByUnits(b[m..]);
      StoredByUnits(b[n..]);
      StoredUnitStep(b, m, u);
      StoredUnitStep(b, n, v);
    }
  }

  // ---------- the loops of the source ----------

  lemma {:induction false} MbUnitsOfValidPrefix(b: seq<Byte>)
    ensures MbUnits(b) == Chars(DecodeAll(b)) + MbUnits(b[ValidUpTo(b)..])
  {
    hide CharLen, Decode, Encode, InvalidLen, DecodeAll, ValidUpTo;
    if CharLen(b) == 0 {
      ValidPrefixEmpty(b);
    } else {
      MbUnitsOfValidPrefix(b[CharLen(b)..]);
      ValidPrefixStep(b);
    }
  }

  function Chars(text: Text): seq<Unit> {
    if text == [] then [] else [Char(text[0])] + Chars(text[1..])
  }

  /** `mb_units`: the valid run and then the invalid bytes of each chunk. */
  method MbUnitsOf(b: seq<Byte>) returns (out: seq<Unit>)
    ensures out == MbUnits(b)
  {
    hide DecodeAll, ValidUpTo, CharLen, InvalidLen, Chars;
    out := [];
    var rest := b;
    while rest != []
      invariant out + MbUnits(rest) == MbUnits(b)
      decreases |rest|
    {
      MbUnitsOfValidPrefix(rest);
      out := out + Chars(DecodeAll(rest));
      rest := rest[ValidUpTo(rest)..];
      if rest != [] {
        var n := InvalidLen(rest);
        out := out + [Invalid(rest[..n])];
        rest := rest[n..];
      }
    }
  }

  /** What `php_utf8_units` keeps of a unit. */
  function CharOf(u: Unit): Option<Scalar> {
    match u
    case Char(c) => Some(c)
    case Invalid(_) => None
  }

  function CharsOf(units: seq<Unit>): seq<Option<Scalar>> {
    if units == [] then [] else [CharOf(units[0])] + CharsOf(units[1..])
  }

  /** `php_utf8_units`. */
  method PhpUtf8Units(s: Text) returns (out: seq<Option<Scalar>>)
    ensures out == CharsOf(PhpUnits(PhpBytes(s)))
  {
    hide PhpNext, PhpBytes;
    var rest := PhpBytes(s);
    out := [];
    while rest != []
      invariant out + CharsOf(PhpUnits(rest)) == CharsOf(PhpUnits(PhpBytes(s)))
      decreases |rest|
    {
      var (c, n) := PhpNext(rest);
      PhpNextLength(rest);
      out := out + [c];
      rest := rest[n..];
    }
  }
}
