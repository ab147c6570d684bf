/** The bridge between PHP byte strings and Rust strings: `src/bytes.rs`. */
module StoredStrings {
  import opened Common
  import opened Utf8

  /** A PHP string as the engine holds it: the characters of a Rust string. */
  type Text = seq<Scalar>

  const ESCAPE_BASE := 0x10FF00

  /** The character a raw byte is stored as. */
  function Escape(b: Byte): Scalar {
    ESCAPE_BASE + b
  }

  predicate IsEscape(c: Scalar) {
    ESCAPE_BASE + 0x80 <= c <= ESCAPE_BASE + 0xFF
  }

  function Escapes(b: seq<Byte>): Text {
    seq(|b|, i requires 0 <= i < |b| => Escape(b[i]))
  }

  /** The bytes that an escape stands for. */
  predicate AllHigh(b: seq<Byte>) {
    forall i :: 0 <= i < |b| ==> b[i] >= 0x80
  }

  predicate HasEscape(s: Text) {
    exists c :: c in s && IsEscape(c)
  }

  /** `has_raw`: one byte scan for 0xF4 comes before the character scan. */
  predicate HasRaw(s: Text) {
    0xF4 in EncodeAll(s) && HasEscape(s)
  }

  /** The PHP bytes that one stored character stands for. */
  function CharBytes(c: Scalar): seq<Byte> {
    if IsEscape(c) then [c - ESCAPE_BASE] else Encode(c)
  }

  /** The PHP bytes that a stored string stands for. */
  function PhpBytes(s: Text): seq<Byte> {
    if s == [] then [] else CharBytes(s[0]) + PhpBytes(s[1..])
  }

  /** The stored form of a character that is meant as itself. */
  function StoredChar(c: Scalar): Text {
    if IsEscape(c) then Escapes(Encode(c)) else [c]
  }

  function StoredText(text: Text): Text {
    if text == [] then [] else StoredChar(text[0]) + StoredText(text[1..])
  }

  /** The stored form of a byte string: a character where one starts, an escape for any other byte. */
  function Stored(b: seq<Byte>): Text {
    if b == [] then []
    else if CharLen(b) == 0 then [Escape(b[0])] + Stored(b[1..])
    else StoredChar(Decode(b)) + Stored(b[CharLen(b)..])
  }

  // ---------- the prefilter ----------

  lemma EscapeBytes(c: Scalar)
    ensures IsEscape(c) ==> |Encode(c)| == 4 && Encode(c)[0] == 0xF4
    ensures IsEscape(c) ==> AllHigh(Encode(c))
  {
  }

  lemma {:induction false} EscapeShowsInUtf8(s: Text)
    ensures HasEscape(s) ==> 0xF4 in EncodeAll(s)
  {
    if s != [] {
      EscapeBytes(s[0]);
      if IsEscape(s[0]) {
        assert Encode(s[0])[0] in EncodeAll(s);
      } else {
        EscapeShowsInUtf8(s[1..]);
      }
    }
  }

  /** The 0xF4 scan never changes the answer of `has_raw`. */
  lemma HasRawIsHasEscape(s: Text)
    ensures HasRaw(s) <==> HasEscape(s)
  {
    EscapeShowsInUtf8(s);
  }

  lemma {:induction false} PlainTextIsItself(s: Text)
    requires !HasEscape(s)
    ensures PhpBytes(s) == EncodeAll(s) && StoredText(s) == s
  {
    if s != [] {
      assert s[0] in s;
      PlainTextIsItself(s[1..]);
    }
  }

  // ---------- round trips ----------

  lemma {:induction false} BytesConcat(s: Text, t: Text)
    ensures PhpBytes(s + t) == PhpBytes(s) + PhpBytes(t)
  {
    if s == [] {
      assert s + t == t;
    } else {
      assert (s + t)[1..] == s[1..] + t;
      BytesConcat(s[1..], t);
    }
  }

  lemma {:induction false} BytesOfEscapes(b: seq<Byte>)
    requires AllHigh(b)
    ensures PhpBytes(Escapes(b)) == b
  {
    if b != [] {
      assert Escapes(b)[1..] == Escapes(b[1..]);
      BytesOfEscapes(b[1..]);
    }
  }

  lemma BytesOfStoredChar(c: Scalar)
    ensures PhpBytes(StoredChar(c)) == Encode(c)
  {
    EscapeBytes(c);
    if IsEscape(c) {
      BytesOfEscapes(Encode(c));
    } else {
      assert PhpBytes([c]) == CharBytes(c) + PhpBytes([]);
    }
  }

  lemma StoredUnfolds(b: seq<Byte>)
    requires CharLen(b) > 0
    ensures Stored(b) == StoredChar(Decode(b)) + Stored(b[CharLen(b)..])
  {
    hide CharLen, Decode, StoredChar;
  }

  lemma BytesOfStray(b: seq<Byte>)
    requires b != [] && CharLen(b) == 0 && PhpBytes(Stored(b[1..])) == b[1..]
    ensures PhpBytes(Stored(b)) == b
  {
    hide CharLen, Decode, PhpBytes, StoredChar;
    StrayIsHigh(b);
    BytesOfEscapes(b[..1]);
    assert Escapes(b[..1]) == [Escape(b[0])] && b == b[..1] + b[1..];
    BytesConcat([Escape(b[0])], Stored(b[1..]));
  }

  lemma StrayIsHigh(b: seq<Byte>)
    requires b != [] && CharLen(b) == 0
    ensures b[0] >= 0x80
  {
  }

  lemma BytesOfStoredStep(b: seq<Byte>)
    requires CharLen(b) > 0 && PhpBytes(Stored(b[CharLen(b)..])) == b[CharLen(b)..]
    ensures PhpBytes(Stored(b)) == b
  {
    hide CharLen, Decode, Encode, StoredChar, PhpBytes, Stored;
    var n := CharLen(b);
    EncodeDecode(b);
    BytesOfStoredChar(Decode(b));
    BytesConcat(StoredChar(Decode(b)), Stored(b[n..]));
    StoredUnfolds(b);
    assert b == b[..n] + b[n..];
  }

  /** `to_bytes(from_bytes(b)) == b`, so no two byte strings share a stored form. */
  lemma {:induction false} BytesOfStored(b: seq<Byte>)
    ensures PhpBytes(Stored(b)) == b
  {
    if b != [] {
      if CharLen(b) == 0 {
        BytesOfStored(b[1..]);
        BytesOfStray(b);
      } else {
        BytesOfStored(b[CharLen(b)..]);
        BytesOfStoredStep(b);
      }
    }
  }

  /** Text stores as the bytes of its UTF-8. */
  lemma {:induction false} StoredUtf8(text: Text)
    ensures Stored(EncodeAll(text)) == StoredText(text)
  {
    if text != [] {
      var rest := EncodeAll(text[1..]);
      DecodeEncode(text[0], rest);
      assert EncodeAll(text)[|Encode(text[0])|..] == rest;
      StoredUtf8(text[1..]);
    }
  }

  // ---------- self-synchronisation ----------

  /** Whether a character that is stored as itself starts at `i` and spans position `k`. */
  predicate MergesAt(b: seq<Byte>, i: nat, k: int)
    requires i <= |b|
  {
    i < k < i + CharLen(b[i..]) && !IsEscape(Decode(b[i..]))
  }

  ghost predicate Merges(b: seq<Byte>, k: nat)
    requires k <= |b|
  {
    exists i :: 0 <= i < k && MergesAt(b, i, k)
  }

  lemma MergesAppended(u: seq<Byte>, v: seq<Byte>, k: nat)
    requires k <= |v|
    ensures Merges(v, k) ==> Merges(u + v, |u| + k)
  {
    if Merges(v, k) {
      var i :| 0 <= i < k && MergesAt(v, i, k);
      assert (u + v)[|u| + i..] == v[i..];
      assert MergesAt(u + v, |u| + i, |u| + k);
    }
  }

  /** Only a trail byte can be inside a character. */
  lemma InsideIsTrail(b: seq<Byte>, k: nat)
    requires k < |b|
    ensures Merges(b, k) ==> IsTrail(b[k])
  {
    if Merges(b, k) {
      var i :| 0 <= i < k && MergesAt(b, i, k);
      assert b[k] == b[i..][k - i];
    }
  }

  predicate AllTrail(b: seq<Byte>) {
    forall i :: 0 <= i < |b| ==> IsTrail(b[i])
  }

  lemma EscapesConcat(u: seq<Byte>, v: seq<Byte>)
    ensures Escapes(u + v) == Escapes(u) + Escapes(v)
  {
  }

  /** The number of bytes that one step of `Stored` takes. */
  function StepLen(b: seq<Byte>): (n: nat)
    requires b != []
    ensures 1 <= n <= |b|
  {
    if CharLen(b) == 0 then 1 else CharLen(b)
  }

  /** The first step is stored on its own. */
  lemma StoredStep(h: seq<Byte>, rest: seq<Byte>)
    requires h != [] && StepLen(h + rest) == |h|
    ensures Stored(h + rest) == Stored(h) + Stored(rest)
    ensures CharLen(h + rest) == 0 ==> Stored(h) == Escapes(h)
    ensures CharLen(h + rest) > 0 ==> Stored(h) == StoredChar(Decode(h + rest))
  {
    var b := h + rest;
    assert b[..|h|] == h && b[|h|..] == rest;
    CharLenPrefix(b, |h|);
    assert h[|h|..] == [] && Stored([]) == [];
    assert Escapes([h[0]]) == [Escape(h[0])];
  }

  lemma {:induction false} TrailRun(u: seq<Byte>, v: seq<Byte>)
    requires AllTrail(u)
    ensures Stored(u + v) == Escapes(u) + Stored(v)
  {
    hide CharLen, Decode, Encode, Stored;
    if u == [] {
      assert u + v == v;
    } else {
      var h, rest := u[..1], u[1..];
      assert u == h + rest && u + v == h + (rest + v);
      StoredStep(h, rest + v);
      TrailRun(rest, v);
      EscapesConcat(h, rest);
    }
  }

  /** The bytes of a character that is cut off are stored as escapes. */
  lemma StoredBrokenChar(p: seq<Byte>)
    requires p != [] && CharLen(p) == 0 && AllTrail(p[1..])
    ensures Stored(p) == Escapes(p)
  {
    var h, rest := p[..1], p[1..];
    assert p == h + rest && rest + [] == rest;
    StoredStep(h, rest);
    TrailRun(rest, []);
    EscapesConcat(h, rest);
  }

  /** The two parts of a character that is cut: neither holds a character. */
  lemma CutCharParts(u: seq<Byte>, v: seq<Byte>, rest: seq<Byte>)
    requires u != [] && v != [] && CharLen(u + v + rest) == |u + v|
    ensures CharLen(u) == 0 && AllTrail(u[1..]) && AllHigh(u) && AllTrail(v)
  {
    var b := u + v + rest;
    assert b[..|u|] == u;
    CharLenPrefix(b, |u|);
    forall i | 1 <= i < |u| ensures IsTrail(u[i]) { assert u[i] == b[i]; }
    forall i | 0 <= i < |v| ensures IsTrail(v[i]) { assert v[i] == b[|u| + i]; }
  }

  lemma StoredCutChar(u: seq<Byte>, v: seq<Byte>, rest: seq<Byte>)
    requires u != [] && v != [] && CharLen(u + v + rest) == |u + v|
    ensures Stored(u) == Escapes(u) && Stored(v + rest) == Escapes(v) + Stored(rest)
  {
    CutCharParts(u, v, rest);
    StoredBrokenChar(u);
    TrailRun(v, rest);
  }

  lemma StoredCutEscapeChar(u: seq<Byte>, v: seq<Byte>, rest: seq<Byte>)
    requires u != [] && v != [] && CharLen(u + v + rest) == |u + v| && IsEscape(Decode(u + v + rest))
    ensures Stored(u + v + rest) == Stored(u) + Stored(v + rest)
  {
    hide CharLen, Decode, Stored, TrailingEscapes, LeadingEscapes;
    var b := u + v + rest;
    StoredCutChar(u, v, rest);
    StoredStep(u + v, rest);
    EncodeDecode(b);
    assert b[..|u + v|] == u + v;
    EscapesConcat(u, v);
  }

  lemma StoredSplitStep(h: seq<Byte>, rest: seq<Byte>, v: seq<Byte>)
    requires h != [] && StepLen(h + rest + v) == |h|
    requires Stored(rest + v) == Stored(rest) + Stored(v)
    ensures Stored(h + rest + v) == Stored(h + rest) + Stored(v)
  {
    hide CharLen, Decode, Stored, TrailingEscapes, LeadingEscapes;
    var b, u := h + rest + v, h + rest;
    assert b == h + (rest + v) && b[..|u|] == u;
    StoredStep(h, rest + v);
    CharLenPrefix(b, |u|);
    StoredStep(h, rest);
  }

  /** The stored form splits wherever no character that is stored as itself spans the cut. */
  lemma {:induction false} StoredSplit(u: seq<Byte>, v: seq<Byte>)
    requires !Merges(u + v, |u|)
    ensures Stored(u + v) == Stored(u) + Stored(v)
    decreases |u|
  {
    hide CharLen, Decode, TrailingEscapes, LeadingEscapes;
    var b := u + v;
    if u == [] {
      assert b == v;
    } else if StepLen(b) <= |u| {
      var n := StepLen(b);
      var h, rest := u[..n], u[n..];
      assert u == h + rest && b == h + (rest + v);
      MergesAppended(h, rest + v, |rest|);
      StoredSplit(rest, v);
      StoredSplitStep(h, rest, v);
    } else {
      var n := StepLen(b);
      assert b[0..] == b;
      assert !MergesAt(b, 0, |u|);
      var w, rest := v[..n - |u|], v[n - |u|..];
      assert v == w + rest && b == u + w + rest;
      StoredCutEscapeChar(u, w, rest);
    }
  }

  lemma StoredByte(x: Byte)
    ensures Stored([x]) == if x < 0x80 then [x] else [Escape(x)]
  {
  }

  /** An escape at the front of a stored form is the first byte's. */
  lemma PeelHead(x: Byte, u: seq<Byte>, c: Scalar, p: Text)
    requires Stored([x] + u) == [c] + p && IsEscape(c)
    ensures x >= 0x80 && c == Escape(x) && Stored(u) == p
  {
    hide CharLen, Decode, Stored, TrailingEscapes, LeadingEscapes;
    var n := StepLen([x] + u);
    if n == 1 {
      StoredStep([x], u);
      StoredByte(x);
    } else {
      var v, rest := u[..n - 1], u[n - 1..];
      assert u == v + rest && [x] + u == [x] + v + rest;
      PeelCutHead(x, v, rest, c, p);
    }
    assert p == ([c] + p)[1..] && Stored(u) == ([c] + Stored(u))[1..];
  }

  lemma PeelCutHead(x: Byte, v: seq<Byte>, rest: seq<Byte>, c: Scalar, p: Text)
    requires v != [] && CharLen([x] + v + rest) == |[x] + v|
    requires Stored([x] + v + rest) == [c] + p && IsEscape(c)
    ensures x >= 0x80 && [c] + p == [Escape(x)] + Stored(v + rest)
  {
    StoredStep([x] + v, rest);
    assert c == ([c] + p)[0];
    CutCharParts([x], v, rest);
    assert x == [x][0];
    StoredCutChar([x], v, rest);
    StoredCutEscapeChar([x], v, rest);
    assert Escapes([x]) == [Escape(x)];
  }

  lemma {:induction false} StoredLength(b: seq<Byte>)
    ensures |Stored(b)| <= |b|
  {
    if b != [] {
      var n := CharLen(b);
      StoredLength(b[if n == 0 then 1 else n..]);
      if n > 0 { EncodeDecode(b); }
    }
  }

  /** A character that is stored as itself stands between what precedes and what follows it. */
  lemma StoredAroundChar(u: seq<Byte>, c: seq<Byte>, v: seq<Byte>)
    requires c != [] && CharLen(c + v) == |c| && !IsEscape(Decode(c + v))
    ensures Stored(u + (c + v)) == Stored(u) + [Decode(c + v)] + Stored(v)
  {
    var b := u + (c + v);
    InsideIsTrail(b, |u|);
    StoredSplit(u, c + v);
    StoredStep(c, v);
  }

  lemma CutAtChar(b: seq<Byte>, i: nat, n: nat) returns (u: seq<Byte>, c: seq<Byte>, v: seq<Byte>)
    requires i <= |b| && CharLen(b[i..]) == n
    ensures b == u + (c + v) && |u| == i && |c| == n && c + v == b[i..] && u == b[..i]
  {
    u, c, v := b[..i], b[i..][..n], b[i..][n..];
  }

  /** An escape at the end of a stored form is the last byte's. */
  lemma PeelTail(u: seq<Byte>, x: Byte, p: Text, c: Scalar)
    requires Stored(u + [x]) == p + [c] && IsEscape(c)
    ensures x >= 0x80 && Stored(u) == p && c == Escape(x)
  {
    var b := u + [x];
    assert c == Stored(b)[|Stored(b)| - 1] && p == Stored(b)[..|Stored(b)| - 1];
    if Merges(b, |u|) {
      var i :| 0 <= i < |u| && MergesAt(b, i, |u|);
      var w, d, v := CutAtChar(b, i, CharLen(b[i..]));
      StoredAroundChar(w, d, v);
      assert false;
    } else {
      StoredSplit(u, [x]);
      StoredByte(x);
    }
  }

  // ---------- the seam ----------

  predicate AllEscapes(s: Text) {
    forall i :: 0 <= i < |s| ==> IsEscape(s[i])
  }

  lemma EscapesSnoc(s: Text, n: nat)
    requires n < |s| && IsEscape(s[|s| - 1]) && AllEscapes(s[..|s| - 1][|s| - 1 - n..])
    ensures AllEscapes(s[|s| - 1 - n..])
  {
    hide IsEscape;
    var k := |s| - 1;
    assert s[k - n..] == s[..k][k - n..] + [s[k]];
  }

  lemma EscapesCons(s: Text, n: nat)
    requires n < |s| && IsEscape(s[0]) && AllEscapes(s[1..][..n])
    ensures AllEscapes(s[..n + 1])
  {
    hide IsEscape;
    assert s[..n + 1] == [s[0]] + s[1..][..n];
  }

  /** The number of escapes at the end of `s`, at most `max`. */
  function TrailingEscapes(s: Text, max: nat): (n: nat)
    ensures n <= max && n <= |s|
    ensures AllEscapes(s[|s| - n..])
    ensures n < max && n < |s| ==> !IsEscape(s[|s| - n - 1])
  {
    hide AllEscapes;
    if max == 0 || s == [] || !IsEscape(s[|s| - 1]) then 0
    else
      var k := |s| - 1;
      var n := TrailingEscapes(s[..k], max - 1);
      EscapesSnoc(s, n);
      1 + n
  }

  /** The number of escapes at the start of `s`, at most `max`. */
  function LeadingEscapes(s: Text, max: nat): (n: nat)
    ensures n <= max && n <= |s|
    ensures AllEscapes(s[..n])
    ensures n < max && n < |s| ==> !IsEscape(s[n])
  {
    if max == 0 || s == [] || !IsEscape(s[0]) then 0
    else
      var n := LeadingEscapes(s[1..], max - 1);
      EscapesCons(s, n);
      1 + n
  }

  /** `x . y`, re-deriving at most three escapes on either side of the seam. */
  function Appended(x: Text, y: Text): Text {
    var tail, head := TrailingEscapes(x, 3), LeadingEscapes(y, 3);
    if tail == 0 || head == 0 then x + y
    else
      var cut := |x| - tail;
      x[..cut] + Stored(PhpBytes(x[cut..]) + PhpBytes(y[..head])) + y[head..]
  }

  lemma RunSnoc(u: seq<Byte>, v: seq<Byte>, x: Byte, f: Text, c: Scalar) returns (w: seq<Byte>)
    requires Escapes(v) == f && AllHigh(v) && x >= 0x80 && c == Escape(x)
    ensures w == v + [x] && u + w == u + v + [x] && Escapes(w) == f + [c] && AllHigh(w)
  {
    w := v + [x];
  }

  /** A run of escapes that ends a stored form stands for the last bytes. */
  lemma {:induction false} TailRun(b: seq<Byte>, p: Text, e: Text) returns (u: seq<Byte>, v: seq<Byte>)
    requires Stored(b) == p + e && AllEscapes(e)
    ensures b == u + v && Stored(u) == p && Escapes(v) == e && AllHigh(v)
    decreases |e|
  {
    hide CharLen, Decode, Encode, Escapes;
    if e == [] {
      u, v := b, [];
      EscapesLength(v);
    } else {
      var w, x, f, c := b[..|b| - 1], b[|b| - 1], e[..|e| - 1], e[|e| - 1];
      assert e == f + [c] && p + e == (p + f) + [c] && b == w + [x];
      PeelTail(w, x, p + f, c);
      u, v := TailRun(w, p, f);
      v := RunSnoc(u, v, x, f, c);
    }
  }

  lemma RunCons(x: Byte, v: seq<Byte>, u: seq<Byte>, c: Scalar, f: Text) returns (w: seq<Byte>)
    requires Escapes(v) == f && AllHigh(v) && x >= 0x80 && c == Escape(x)
    ensures w == [x] + v && w + u == [x] + (v + u) && Escapes(w) == [c] + f && AllHigh(w)
  {
    w := [x] + v;
  }

  /** A run of escapes that begins a stored form stands for the first bytes. */
  lemma {:induction false} HeadRun(b: seq<Byte>, e: Text, p: Text) returns (v: seq<Byte>, u: seq<Byte>)
    requires Stored(b) == e + p && AllEscapes(e)
    ensures b == v + u && Stored(u) == p && Escapes(v) == e && AllHigh(v)
    decreases |e|
  {
    hide CharLen, Decode, Encode, IsEscape;
    if e == [] {
      v, u := [], b;
    } else {
      var x, w, c, f := b[0], b[1..], e[0], e[1..];
      assert e == [c] + f && e + p == [c] + (f + p) && b == [x] + w;
      PeelHead(x, w, c, f + p);
      v, u := HeadRun(w, f, p);
      v := RunCons(x, v, u, c, f);
    }
  }

  /** Where a character that is stored as itself stands in the stored form. */
  lemma PlaceOfChar(u: seq<Byte>, c: seq<Byte>, v: seq<Byte>)
    requires c != [] && CharLen(c + v) == |c| && !IsEscape(Decode(c + v))
    ensures var s, j := Stored(u + (c + v)), |Stored(u)|;
      j <= |u| && |s| - |v| <= j + 1 <= |s| && s[j] == Decode(c + v)
  {
    StoredAroundChar(u, c, v);
    StoredLength(u);
    StoredLength(v);
  }

  /** A character cut in two leaves escapes on either side. */
  lemma CutChar(x: seq<Byte>, u: seq<Byte>, w: seq<Byte>, rest: seq<Byte>)
    requires u != [] && w != [] && CharLen(u + w + rest) == |u + w|
    ensures Stored(x + u) == Stored(x) + Escapes(u) && AllHigh(u)
    ensures Stored(w + rest) == Escapes(w) + Stored(rest) && AllHigh(w)
  {
    CutCharParts(u, w, rest);
    StoredCutChar(u, w, rest);
    assert !IsTrail(u[0]) by { assert u[0] == (u + w + rest)[0]; }
    InsideIsTrail(x + u, |x|);
    StoredSplit(x, u);
  }

  lemma CharInside(x: seq<Byte>, y: seq<Byte>, i: nat) returns (u: seq<Byte>, c: seq<Byte>, v: seq<Byte>)
    requires i < |x| && 0 < CharLen((x + y)[i..]) <= |x| - i
    ensures x == u + (c + v) && |u| == i && |c| == CharLen((x + y)[i..]) == CharLen(c + v)
    ensures Decode(c + v) == Decode((x + y)[i..])
  {
    assert (x + y)[i..][..|x| - i] == x[i..];
    CharLenPrefix((x + y)[i..], |x| - i);
    u, c, v := CutAtChar(x, i, CharLen((x + y)[i..]));
  }

  lemma CutAcross(x: seq<Byte>, y: seq<Byte>, i: nat)
    returns (a: seq<Byte>, u: seq<Byte>, w: seq<Byte>, rest: seq<Byte>)
    requires i < |x| < i + CharLen((x + y)[i..])
    ensures x == a + u && y == w + rest && |a| == i && u != [] && w != []
    ensures CharLen(u + w + rest) == |u + w| == CharLen((x + y)[i..])
  {
    hide CharLen;
    var n := i + CharLen((x + y)[i..]) - |x|;
    a, u, w, rest := x[..i], x[i..], y[..n], y[n..];
    assert y == w + rest;
    assert (x + y)[i..] == u + y == u + w + rest;
  }

  /** Around a character that spans the join, the stored forms of both sides hold escapes. */
  lemma EscapesAcross(x: seq<Byte>, y: seq<Byte>, i: nat)
    requires i < |x| < i + CharLen((x + y)[i..])
    ensures var t, h := |x| - i, i + CharLen((x + y)[i..]) - |x|;
      && t + h <= 4 && t <= |Stored(x)| && h <= |Stored(y)|
      && (forall k :: |Stored(x)| - t <= k < |Stored(x)| ==> IsEscape(Stored(x)[k]))
      && (forall k :: 0 <= k < h ==> IsEscape(Stored(y)[k]))
  {
    hide CharLen, Decode, Stored;
    var a, u, w, rest := CutAcross(x, y, i);
    CutChar(a, u, w, rest);
  }

  /** No character of the joined bytes that ends with `x0 + xt` at the latest spans the start of `xt`. */
  lemma NoSpanInTail(x0: seq<Byte>, xt: seq<Byte>, y: seq<Byte>, i: nat)
    requires Stored(x0 + xt) == Stored(x0) + Escapes(xt) && AllHigh(xt)
    requires i <= |x0| && MergesAt(x0 + xt + y, i, |x0|)
    ensures i + CharLen((x0 + xt + y)[i..]) > |x0 + xt|
  {
    hide CharLen, Decode, Stored;
    if i + CharLen((x0 + xt + y)[i..]) <= |x0 + xt| {
      var u, c, v := CharInside(x0 + xt, y, i);
      PlaceOfChar(u, c, v);
      assert false;
    }
  }

  /** A character that spans the start of the re-derived tail shows as one more escape before it. */
  lemma SpanShowsInTail(x0: seq<Byte>, xt: seq<Byte>, y: seq<Byte>)
    requires Stored(x0 + xt) == Stored(x0) + Escapes(xt) && AllHigh(xt)
    requires Merges(x0 + xt + y, |x0|)
    ensures var s := Stored(x0 + xt); |xt| < 3 && |xt| < |s| && IsEscape(s[|s| - |xt| - 1])
  {
    hide CharLen, Decode, Stored, Escapes, AllHigh, IsEscape;
    var i :| 0 <= i < |x0| && MergesAt(x0 + xt + y, i, |x0|);
    NoSpanInTail(x0, xt, y, i);
    EscapesAcross(x0 + xt, y, i);
  }

  /** No character of the joined bytes that starts in `yh` spans its end. */
  lemma NoSpanInHead(x: seq<Byte>, yh: seq<Byte>, y1: seq<Byte>, i: nat)
    requires Stored(yh + y1) == Escapes(yh) + Stored(y1) && AllHigh(yh)
    requires i <= |x| + |yh| && MergesAt(x + (yh + y1), i, |x| + |yh|)
    ensures i < |x|
  {
    hide CharLen, Decode, Stored;
    if i >= |x| {
      assert (yh + y1)[i - |x|..] == (x + (yh + y1))[i..];
      var u, c, v := CutAtChar(yh + y1, i - |x|, CharLen((x + (yh + y1))[i..]));
      PlaceOfChar(u, c, v);
      assert false;
    }
  }

  /** A character that spans the end of the re-derived head shows as one more escape after it. */
  lemma SpanShowsInHead(x: seq<Byte>, yh: seq<Byte>, y1: seq<Byte>)
    requires Stored(yh + y1) == Escapes(yh) + Stored(y1) && AllHigh(yh)
    requires Merges(x + (yh + y1), |x| + |yh|)
    ensures var s := Stored(yh + y1); |yh| < 3 && |yh| < |s| && IsEscape(s[|yh|])
  {
    hide CharLen, Decode, Stored, Escapes, AllHigh, IsEscape;
    var i :| 0 <= i < |x| + |yh| && MergesAt(x + (yh + y1), i, |x| + |yh|);
    NoSpanInHead(x, yh, y1, i);
    EscapesAcross(x, yh + y1, i);
  }

  lemma SeamSplit(x0: seq<Byte>, seam: seq<Byte>, y1: seq<Byte>)
    requires !Merges(x0 + (seam + y1), |x0|) && !Merges(x0 + (seam + y1), |x0| + |seam|)
    ensures Stored(x0 + (seam + y1)) == Stored(x0) + (Stored(seam) + Stored(y1))
  {
    hide CharLen, Decode, Stored, TrailingEscapes, LeadingEscapes;
    StoredSplit(x0, seam + y1);
    MergesAppended(x0, seam + y1, |seam|);
    StoredSplit(seam, y1);
  }

  /** The start of the re-derived tail is not inside a character of the joined bytes. */
  lemma NoSpanAtTail(x0: seq<Byte>, xt: seq<Byte>, y: seq<Byte>)
    requires Stored(x0 + xt) == Stored(x0) + Escapes(xt) && AllHigh(xt)
    requires |xt| == TrailingEscapes(Stored(x0 + xt), 3)
    ensures !Merges(x0 + xt + y, |x0|)
  {
    hide *;
    if Merges(x0 + xt + y, |x0|) {
      SpanShowsInTail(x0, xt, y);
    }
  }

  /** Nor is the end of the re-derived head. */
  lemma NoSpanAtHead(x: seq<Byte>, yh: seq<Byte>, y1: seq<Byte>)
    requires Stored(yh + y1) == Escapes(yh) + Stored(y1) && AllHigh(yh)
    requires |yh| == LeadingEscapes(Stored(yh + y1), 3)
    ensures !Merges(x + (yh + y1), |x| + |yh|)
  {
    hide *;
    if Merges(x + (yh + y1), |x| + |yh|) {
      SpanShowsInHead(x, yh, y1);
    }
  }

  lemma AppendedParts(p: Text, e: Text, f: Text, q: Text)
    requires |e| == TrailingEscapes(p + e, 3) && |f| == LeadingEscapes(f + q, 3)
    ensures Appended(p + e, f + q) ==
            if e == [] || f == [] then (p + e) + (f + q) else p + (Stored(PhpBytes(e) + PhpBytes(f)) + q)
  {
    hide Stored, TrailingEscapes, LeadingEscapes, PhpBytes;
    var x, y := p + e, f + q;
    assert x[..|p|] == p && x[|p|..] == e && y[..|f|] == f && y[|f|..] == q;
  }

  lemma AppendedEscapes(p: Text, xt: seq<Byte>, yh: seq<Byte>, q: Text)
    requires AllHigh(xt) && AllHigh(yh)
    requires |xt| == TrailingEscapes(p + Escapes(xt), 3) && |yh| == LeadingEscapes(Escapes(yh) + q, 3)
    ensures Appended(p + Escapes(xt), Escapes(yh) + q) ==
            if xt == [] || yh == [] then (p + Escapes(xt)) + (Escapes(yh) + q) else p + (Stored(xt + yh) + q)
  {
    hide *;
    EscapesLength(xt);
    EscapesLength(yh);
    BytesOfEscapes(xt);
    BytesOfEscapes(yh);
    AppendedParts(p, Escapes(xt), Escapes(yh), q);
  }

  lemma AppendedAtSeam(x0: seq<Byte>, xt: seq<Byte>, yh: seq<Byte>, y1: seq<Byte>)
    requires Stored(x0 + xt) == Stored(x0) + Escapes(xt) && AllHigh(xt)
    requires Stored(yh + y1) == Escapes(yh) + Stored(y1) && AllHigh(yh)
    requires |xt| == TrailingEscapes(Stored(x0 + xt), 3)
    requires |yh| == LeadingEscapes(Stored(yh + y1), 3)
    ensures Appended(Stored(x0 + xt), Stored(yh + y1)) == Stored(x0 + xt + (yh + y1))
  {
    hide *;
    var x, y := x0 + xt, yh + y1;
    NoSpanAtTail(x0, xt, y);
    NoSpanAtHead(x, yh, y1);
    AppendedEscapes(Stored(x0), xt, yh, Stored(y1));
    if xt == [] {
      StoredSplit(x, y);
    } else if yh == [] {
      StoredSplit(x, y);
    } else {
      assert x + y == x0 + ((xt + yh) + y1);
      SeamSplit(x0, xt + yh, y1);
    }
  }

  /** The seam theorem: joining two stored strings stores the joined bytes. */
  lemma AppendedIsStored(x: seq<Byte>, y: seq<Byte>)
    ensures Appended(Stored(x), Stored(y)) == Stored(x + y)
  {
    hide *;
    var sx, sy := Stored(x), Stored(y);
    var k, h := |sx| - TrailingEscapes(sx, 3), LeadingEscapes(sy, 3);
    var p, e, f, q := sx[..k], sx[k..], sy[..h], sy[h..];
    assert sx == p + e && sy == f + q;
    var x0, xt := TailRun(x, p, e);
    var yh, y1 := HeadRun(y, f, q);
    EscapesLength(xt);
    EscapesLength(yh);
    AppendedAtSeam(x0, xt, yh, y1);
  }

  lemma EscapesLength(b: seq<Byte>)
    ensures |Escapes(b)| == |b|
  {
  }

  function Flatten(parts: seq<seq<Byte>>): seq<Byte> {
    if parts == [] then [] else Flatten(parts[..|parts| - 1]) + parts[|parts| - 1]
  }

  function AppendedAll(parts: seq<Text>): Text {
    if parts == [] then [] else Appended(AppendedAll(parts[..|parts| - 1]), parts[|parts| - 1])
  }

  /** Any run of appends holds the canonical form of the joined bytes. */
  lemma {:induction false} AppendedAllIsStored(parts: seq<seq<Byte>>)
    ensures AppendedAll(seq(|parts|, i requires 0 <= i < |parts| => Stored(parts[i]))) == Stored(Flatten(parts))
  {
    if parts != [] {
      var k := |parts| - 1;
      var all := seq(|parts|, i requires 0 <= i < |parts| => Stored(parts[i]));
      assert all[..k] == seq(k, i requires 0 <= i < k => Stored(parts[..k][i]));
      AppendedAllIsStored(parts[..k]);
      AppendedIsStored(Flatten(parts[..k]), parts[k]);
    }
  }

  // ---------- the canonical form ----------

  function Canonical(s: Text): Text {
    if HasRaw(s) then Stored(PhpBytes(s)) else s
  }

  /** `canonical` re-derives every string, although it returns one without escapes untouched. */
  lemma CanonicalIsStored(s: Text)
    ensures Canonical(s) == Stored(PhpBytes(s))
  {
    HasRawIsHasEscape(s);
    if !HasEscape(s) {
      PlainTextIsItself(s);
      StoredUtf8(s);
    }
  }

  /** `canonical` is idempotent, keeps the bytes, and fixes exactly the stored forms; two strings
      share a canonical form exactly when they stand for the same bytes. */
  lemma CanonicalForm(s: Text, t: Text)
    ensures Canonical(Canonical(s)) == Canonical(s)
    ensures PhpBytes(Canonical(s)) == PhpBytes(s)
    ensures Canonical(s) == s <==> exists b :: s == Stored(b)
    ensures Canonical(s) == Canonical(t) <==> PhpBytes(s) == PhpBytes(t)
  {
    CanonicalIsStored(s);
    CanonicalIsStored(t);
    CanonicalIsStored(Canonical(s));
    BytesOfStored(PhpBytes(s));
    BytesOfStored(PhpBytes(t));
    if b :| s == Stored(b) {
      BytesOfStored(b);
    }
  }
}
