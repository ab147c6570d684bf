/** UTF-8 as the Rust standard library decodes it: section 4 of RFC 3629 and section 3.9
    (Table 3-7, maximal subparts) of the Unicode Standard. */
module Utf8 {
  import opened Common

  /** A Unicode scalar value, which is what a Rust `char` holds. */
  type Scalar = c: int | 0 <= c < 0xD800 || 0xE000 <= c <= 0x10FFFF

  predicate IsTrail(b: Byte) {
    0x80 <= b <= 0xBF
  }

  /** The length of the sequences that a first byte announces; 0 for a byte that starts none. */
  function SequenceLength(lead: Byte): nat {
    if lead < 0x80 then 1
    else if 0xC2 <= lead <= 0xDF then 2
    else if 0xE0 <= lead <= 0xEF then 3
    else if 0xF0 <= lead <= 0xF4 then 4
    else 0
  }

  /** The range that Table 3-7 allows for a second byte. */
  predicate IsSecond(lead: Byte, b: Byte) {
    (match lead
     case 0xE0 => 0xA0
     case 0xF0 => 0x90
     case _ => 0x80) <= b <=
    (match lead
     case 0xED => 0x9F
     case 0xF4 => 0x8F
     case _ => 0xBF)
  }

  /** The length of the well-formed character at the start of `b`, or 0 when there is none. */
  function CharLen(b: seq<Byte>): (n: nat)
    ensures n <= 4 && n <= |b|
    ensures n > 0 ==> !IsTrail(b[0]) && forall i :: 1 <= i < n ==> IsTrail(b[i])
  {
    if b == [] then 0
    else
      var n := SequenceLength(b[0]);
      if && n <= |b|
         && (n >= 2 ==> IsSecond(b[0], b[1]))
         && (n >= 3 ==> IsTrail(b[2]))
         && (n >= 4 ==> IsTrail(b[3]))
      then n else 0
  }

  /** Six more bits from the trail byte `trail`. */
  function SixMore(bits: int, trail: int): int {
    bits * 0x40 + (trail - 0x80)
  }

  /** The character at the start of `b`. */
  function Decode(b: seq<Byte>): Scalar
    requires CharLen(b) > 0
  {
    var n := CharLen(b);
    if n == 1 then b[0]
    else if n == 2 then SixMore(b[0] - 0xC0, b[1])
    else if n == 3 then SixMore(SixMore(b[0] - 0xE0, b[1]), b[2])
    else SixMore(SixMore(SixMore(b[0] - 0xF0, b[1]), b[2]), b[3])
  }

  function Encode(c: Scalar): seq<Byte> {
    if c < 0x80 then [c]
    else if c < 0x800 then [0xC0 + c / 0x40, 0x80 + c % 0x40]
    else if c < 0x10000 then [0xE0 + c / 0x40 / 0x40, 0x80 + c / 0x40 % 0x40, 0x80 + c % 0x40]
    else [0xF0 + c / 0x40 / 0x40 / 0x40, 0x80 + c / 0x40 / 0x40 % 0x40, 0x80 + c / 0x40 % 0x40, 0x80 + c % 0x40]
  }

  /** The bytes of a Rust string. */
  function EncodeAll(text: seq<Scalar>): seq<Byte> {
    if text == [] then [] else Encode(text[0]) + EncodeAll(text[1..])
  }

  lemma SixMoreSplit(bits: int, trail: Byte)
    requires IsTrail(trail)
    ensures SixMore(bits, trail) / 0x40 == bits && SixMore(bits, trail) % 0x40 == trail - 0x80
  {
  }

  /** Decoding and re-encoding a character returns the bytes it was read from. */
  lemma EncodeDecode(b: seq<Byte>)
    requires CharLen(b) > 0
    ensures Encode(Decode(b)) == b[..CharLen(b)]
  {
    hide SixMore;
    var n := CharLen(b);
    if n == 2 {
      SixMoreSplit(b[0] - 0xC0, b[1]);
    } else if n == 3 {
      SixMoreSplit(b[0] - 0xE0, b[1]);
      SixMoreSplit(SixMore(b[0] - 0xE0, b[1]), b[2]);
    } else if n == 4 {
      var two := SixMore(b[0] - 0xF0, b[1]);
      SixMoreSplit(b[0] - 0xF0, b[1]);
      SixMoreSplit(two, b[2]);
      SixMoreSplit(SixMore(two, b[2]), b[3]);
    }
  }

  /** An encoded character is read back, whatever follows it. */
  lemma DecodeEncode(c: Scalar, rest: seq<Byte>)
    ensures CharLen(Encode(c) + rest) == |Encode(c)| > 0
    ensures Decode(Encode(c) + rest) == c
  {
  }

  /** A character is recognised from its own bytes alone. */
  lemma CharLenPrefix(b: seq<Byte>, k: nat)
    requires k <= |b|
    ensures CharLen(b[..k]) == if CharLen(b) <= k then CharLen(b) else 0
    ensures 0 < CharLen(b) <= k ==> Decode(b[..k]) == Decode(b)
  {
  }

  /** Whether `b` begins some well-formed character that it does not complete. */
  ghost predicate IsInitialSubsequence(b: seq<Byte>) {
    exists rest: seq<Byte> :: |b| < CharLen(b + rest)
  }

  /** The number of leading bytes of `b` that the decoder reports as one invalid unit. */
  function InvalidLen(b: seq<Byte>): (n: nat)
    requires b != [] && CharLen(b) == 0
    ensures 1 <= n <= 3 && n <= |b|
    ensures forall i :: 1 <= i < n ==> IsTrail(b[i])
  {
    if |b| == 1 || SequenceLength(b[0]) == 0 || !IsSecond(b[0], b[1]) then 1
    else if |b| == 2 || !IsTrail(b[2]) then 2
    else 3
  }

  /** `InvalidLen` is the maximal subpart of definition D93b: the longest initial subsequence of a
      well-formed character, or a single byte when there is none. */
  lemma InvalidLenIsMaximalSubpart(b: seq<Byte>, k: nat)
    requires b != [] && CharLen(b) == 0
    requires 1 <= k <= |b|
    ensures IsInitialSubsequence(b[..k]) ==> k <= InvalidLen(b)
    ensures k == InvalidLen(b) && k > 1 ==> IsInitialSubsequence(b[..k])
  {
    if IsInitialSubsequence(b[..k]) {
      var rest: seq<Byte> :| |b[..k]| < CharLen(b[..k] + rest);
      CharLenPrefix(b, k);
    }
    if k == InvalidLen(b) && k > 1 {
      var n := SequenceLength(b[0]);
      var rest: seq<Byte> := [0x80, 0x80];
      assert CharLen(b[..k] + rest) == n;
    }
  }

  /** `Utf8Error::error_len` for the invalid bytes `b`: `None` when the input ends mid-character. */
  function ErrorLen(b: seq<Byte>): (len: Option<nat>)
    requires b != [] && CharLen(b) == 0
    ensures len.None? <==> IsInitialSubsequence(b)
    ensures len.None? ==> InvalidLen(b) == |b|
    ensures len.Some? ==> len.value == InvalidLen(b)
  {
    InvalidLenIsMaximalSubpart(b, |b|);
    EndsMidCharacter(b);
    if InvalidLen(b) == |b| < SequenceLength(b[0]) then None else Some(InvalidLen(b))
  }

  lemma EndsMidCharacter(b: seq<Byte>)
    requires b != [] && CharLen(b) == 0
    ensures IsInitialSubsequence(b) <==> InvalidLen(b) == |b| < SequenceLength(b[0])
  {
    InvalidLenIsMaximalSubpart(b, |b|);
    assert b[..|b|] == b;
    if InvalidLen(b) == |b| < SequenceLength(b[0]) {
      var rest: seq<Byte> :=
        if IsSecond(b[0], 0x80) then [0x80, 0x80, 0x80]
        else if IsSecond(b[0], 0x90) then [0x90, 0x80, 0x80]
        else [0xA0, 0x80, 0x80];
      assert CharLen(b + rest) == SequenceLength(b[0]);
    }
  }

  /** What `str::from_utf8` reports as `valid_up_to`: the length of the longest well-formed prefix. */
  function ValidUpTo(b: seq<Byte>): (n: nat)
    ensures n <= |b| && CharLen(b[n..]) == 0
  {
    var n := CharLen(b);
    if n == 0 then 0 else n + ValidUpTo(b[n..])
  }

  /** The text of a well-formed prefix. */
  function DecodeAll(b: seq<Byte>): (text: seq<Scalar>)
    ensures EncodeAll(text) == b[..ValidUpTo(b)]
  {
    var n := CharLen(b);
    if n == 0 then []
    else
      EncodeDecode(b);
      [Decode(b)] + DecodeAll(b[n..])
  }

  lemma ValidPrefixStep(b: seq<Byte>)
    requires CharLen(b) > 0
    ensures var rest := b[CharLen(b)..];
      && DecodeAll(b) == [Decode(b)] + DecodeAll(rest)
      && b[ValidUpTo(b)..] == rest[ValidUpTo(rest)..]
  {
    hide CharLen, Decode, Encode;
  }

  lemma ValidPrefixEmpty(b: seq<Byte>)
    requires CharLen(b) == 0
    ensures DecodeAll(b) == [] && ValidUpTo(b) == 0 && b[ValidUpTo(b)..] == b
  {
  }
}
