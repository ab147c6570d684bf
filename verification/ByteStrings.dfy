/** The operations of `src/bytes.rs` that build strings step by step. */
module ByteStrings {
  import opened Common
  import opened Utf8
  import opened StoredStrings

  lemma {:induction false} StoredValidPrefix(b: seq<Byte>)
    ensures Stored(b) == StoredText(DecodeAll(b)) + Stored(b[ValidUpTo(b)..])
  {
    hide CharLen, Decode, Encode, Stored, StoredText, DecodeAll, ValidUpTo;
    if CharLen(b) == 0 {
      ValidPrefixEmpty(b);
      StoredTextCons([]);
    } else {
      var h, rest := b[..CharLen(b)], b[CharLen(b)..];
      assert b == h + rest;
      StoredStep(h, rest);
      StoredValidPrefix(rest);
      ValidPrefixStep(b);
      StoredTextCons(DecodeAll(b));
    }
  }

  lemma StoredTextCons(text: Text)
    ensures text == [] ==> StoredText(text) == []
    ensures text != [] ==> StoredText(text) == StoredChar(text[0]) + StoredText(text[1..])
  {
  }

  lemma StoredInvalidPrefix(b: seq<Byte>)
    requires b != [] && CharLen(b) == 0
    ensures var n := InvalidLen(b); Stored(b) == Escapes(b[..n]) + Stored(b[n..])
  {
    hide CharLen, InvalidLen, Stored, Escapes;
    var n := InvalidLen(b);
    var h, trail, rest := b[..1], b[1..n], b[n..];
    assert b == h + (trail + rest) && b[..n] == h + trail;
    StoredStep(h, trail + rest);
    TrailRun(trail, rest);
    EscapesConcat(h, trail);
  }

  /** Text is pushed as it is unless a character of it lies in the escape range. */
  method PushText(buffer: Text, text: Text) returns (out: Text)
    ensures out == buffer + StoredText(text)
  {
    hide EncodeAll, Encode, StoredText, Escapes;
    if 0xF4 !in EncodeAll(text) {
      EscapeShowsInUtf8(text);
      PlainTextIsItself(text);
      return buffer + text;
    }
    out := buffer;
    for i := 0 to |text|
      invariant out + StoredText(text[i..]) == buffer + StoredText(text)
    {
      assert text[i..][1..] == text[i + 1..];
      StoredTextCons(text[i..]);
      if IsEscape(text[i]) {
        out := PushEscapes(out, Encode(text[i]));
      } else {
        out := out + [text[i]];
      }
    }
    StoredTextCons(text[|text|..]);
  }

  method PushEscapes(buffer: Text, bytes: seq<Byte>) returns (out: Text)
    ensures out == buffer + Escapes(bytes)
  {
    out := buffer;
    for i := 0 to |bytes|
      invariant out == buffer + Escapes(bytes[..i])
    {
      assert bytes[..i + 1] == bytes[..i] + [bytes[i]];
      EscapesConcat(bytes[..i], [bytes[i]]);
      assert Escapes([bytes[i]]) == [Escape(bytes[i])];
      out := out + [Escape(bytes[i])];
    }
    assert bytes[..|bytes|] == bytes;
  }

  lemma StoredEmpty()
    ensures Stored([]) == []
  {
  }

  /** `from_bytes`: alternately a valid run and the bytes that do not decode. */
  method FromBytes(b: seq<Byte>) returns (out: Text)
    ensures out == Stored(b)
  {
    hide CharLen, InvalidLen, ErrorLen, ValidUpTo, DecodeAll, Stored, StoredText, Escapes;
    assert Stored([]) == [] by { StoredEmpty(); }
    out := [];
    var rest := b;
    while true
      invariant out + Stored(rest) == Stored(b)
      decreases |rest|
    {
      StoredValidPrefix(rest);
      out := PushText(out, DecodeAll(rest));
      var after := rest[ValidUpTo(rest)..];
      if after == [] {
        return;
      }
      var len := ErrorLen(after);
      var bad := if len.Some? then len.value else |after|;
      StoredInvalidPrefix(after);
      out := PushEscapes(out, after[..bad]);
      rest := after[bad..];
    }
  }

  /** `from_text`: the string itself when no character needs escaping. */
  method FromText(text: Text) returns (out: Text)
    ensures out == Stored(EncodeAll(text))
  {
    StoredUtf8(text);
    if 0xF4 !in EncodeAll(text) || !HasEscape(text) {
      EscapeShowsInUtf8(text);
      PlainTextIsItself(text);
      return text;
    }
    out := PushText([], text);
  }

  lemma BytesOfChar(c: Scalar)
    ensures PhpBytes([c]) == CharBytes(c)
  {
    assert [c][1..] == [] && CharBytes(c) + [] == CharBytes(c);
  }

  /** `to_bytes`: the Rust bytes when there is no escape, else character by character. */
  method ToBytes(s: Text) returns (out: seq<Byte>)
    ensures out == PhpBytes(s)
  {
    HasRawIsHasEscape(s);
    if !HasRaw(s) {
      PlainTextIsItself(s);
      return EncodeAll(s);
    }
    hide PhpBytes, Encode, EncodeAll, HasRaw;
    out := [];
    for i := 0 to |s|
      invariant out == PhpBytes(s[..i])
    {
      assert s[..i + 1] == s[..i] + [s[i]];
      BytesConcat(s[..i], [s[i]]);
      BytesOfChar(s[i]);
      if IsEscape(s[i]) {
        out := out + [s[i] - ESCAPE_BASE];
      } else {
        out := out + Encode(s[i]);
      }
    }
    assert s[..|s|] == s;
  }

  method ByteLen(s: Text) returns (n: nat)
    ensures n == |PhpBytes(s)|
    ensures forall b :: s == Stored(b) ==> n == |b|
  {
    forall b | s == Stored(b) ensures PhpBytes(s) == b { BytesOfStored(b); }
    HasRawIsHasEscape(s);
    if HasRaw(s) {
      var bytes := ToBytes(s);
      return |bytes|;
    }
    PlainTextIsItself(s);
    return |EncodeAll(s)|;
  }

  /** A string variable that the program appends to. */
  class PhpString {
    var text: Text

    constructor (b: seq<Byte>)
      ensures text == Stored(b)
    {
      new;
      text := FromBytes(b);
    }

    /** `append`: only the seam is re-derived. */
    method Append(y: Text)
      modifies this
      ensures text == Appended(old(text), y)
      ensures forall b, c :: old(text) == Stored(b) && y == Stored(c) ==> text == Stored(b + c)
    {
      forall b, c | text == Stored(b) && y == Stored(c)
        ensures Appended(text, y) == Stored(b + c)
      {
        AppendedIsStored(b, c);
      }
      var tail, head := TrailingEscapes(text, 3), LeadingEscapes(y, 3);
      if tail == 0 || head == 0 {
        text := text + y;
        return;
      }
      var cut := |text| - tail;
      var seam := ToBytes(text[cut..]);
      var more := ToBytes(y[..head]);
      seam := seam + more;
      text := text[..cut];
      var joined := FromBytes(seam);
      text := text + joined;
      text := text + y[head..];
    }
  }
}
