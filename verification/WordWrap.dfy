/** `wordwrap` over bytes: both paths of `php_wordwrap` of `src/builtins.rs`. */
module WordWrap {
  import opened Common

  const SPACE: Byte := 32

  // ---------- the path that rewrites spaces in place ----------

  /** Whether `i` begins a line of `s` that reaches to `j` at least. */
  predicate LineFrom(s: seq<Byte>, brk: Byte, i: nat, j: nat)
    requires i <= j < |s|
  {
    (i == 0 || s[i - 1] == brk) && forall m :: i <= m <= j ==> s[m] != brk
  }

  /** No line of the first `n` bytes that holds a space it could end at is longer than the width. */
  predicate Bounded(s: seq<Byte>, brk: Byte, width: int, n: nat)
    requires n <= |s|
  {
    forall i, j, k :: 0 <= i <= k <= j < n && Usable(i, width) <= k && s[k] == 0x20 && LineFrom(s, brk, i, j) ==>
      j - i < width
  }

  /** The first place at which a line can be broken at a space: past its first byte, unless it is to hold nothing. */
  function Usable(start: int, width: int): int {
    if width <= 0 then start else start + 1
  }

  /** `s` is `text` with some spaces turned into the break byte. */
  predicate OnlySpacesBroken(text: seq<Byte>, s: seq<Byte>, brk: Byte) {
    |s| == |text| && forall i :: 0 <= i < |s| ==> s[i] == text[i] || (text[i] == 0x20 && s[i] == brk)
  }

  /** The break at `p` was called for: up to some `c`, with no space or break on the way from `p`, the
      line would have grown to the width. */
  predicate Called(text: seq<Byte>, s: seq<Byte>, brk: Byte, width: int, p: nat, ls: nat, c: nat)
    requires |s| == |text|
  {
    && ls <= p <= c < |text| && c - ls >= width && Usable(ls, width) <= p
    && (ls == 0 || s[ls - 1] == brk)
    && (forall m :: ls <= m < p ==> s[m] != brk)
    && (forall m :: p < m <= c ==> text[m] != SPACE && text[m] != brk)
  }

  /** Every space that was turned into a break had to be. */
  ghost predicate AllCalled(text: seq<Byte>, s: seq<Byte>, brk: Byte, width: int, n: nat)
    requires |s| == |text| && n <= |s|
  {
    forall p :: 0 <= p < n && s[p] != text[p] ==> exists ls, c :: Called(text, s, brk, width, p, ls, c)
  }

  /** What the loop knows at byte `current`, in a line that begins at `laststart`. */
  ghost predicate InPlace(text: seq<Byte>, s: seq<Byte>, brk: Byte, width: int,
                          current: int, laststart: int, lastspace: int)
  {
    && |s| == |text| && 0 <= laststart <= current <= |s| && 0 <= lastspace
    && OnlySpacesBroken(text, s, brk)
    && (laststart == 0 || s[laststart - 1] == brk)
    && (forall k :: laststart <= k < |s| ==> s[k] == text[k])
    && (forall k :: laststart <= k < current ==> s[k] != brk)
    && (forall k :: laststart <= k < current && k > lastspace ==> text[k] != SPACE)
    && (width <= 0 ==> forall k :: laststart <= k < current ==> text[k] != SPACE)
    && (lastspace == laststart - 1 || lastspace == laststart ||
        (laststart < lastspace < current && text[lastspace] == SPACE))
    && (lastspace > laststart ==> current - laststart <= width)
    && Bounded(s, brk, width, laststart)
    && AllCalled(text, s, brk, width, laststart)
  }

  /** The line that ends before the break at `p` is in order, and a new one begins. */
  lemma LineEnds(text: seq<Byte>, s: seq<Byte>, brk: Byte, width: int, current: int, laststart: int, lastspace: int,
                 p: int)
    requires InPlace(text, s, brk, width, current, laststart, lastspace)
    requires laststart <= p <= current < |s| && (p == current || p == lastspace)
    requires text[p] == brk || (text[p] == SPACE && current - laststart >= width && text[current] != brk)
    requires p == current || (text[current] != SPACE && p > laststart)
    ensures var r := s[p := brk];
      && OnlySpacesBroken(text, r, brk) && Bounded(r, brk, width, p + 1) && AllCalled(text, r, brk, width, p + 1)
  {
    var r := s[p := brk];
    forall i, j, k | 0 <= i <= k <= j < p + 1 && Usable(i, width) <= k && r[k] == 0x20 && LineFrom(r, brk, i, j)
      ensures j - i < width
    {
      assert r[j] != brk && r[k] == s[k];
      assert forall m :: 0 <= m < p ==> r[m] == s[m];
      if j < laststart {
        assert LineFrom(s, brk, i, j);
      } else {
        assert i > 0 ==> r[i - 1] == s[i - 1];
        assert i == laststart;
        assert k <= lastspace;
      }
    }
    forall q | 0 <= q < p + 1 && r[q] != text[q]
      ensures exists ls, c :: Called(text, r, brk, width, q, ls, c)
    {
      if q < laststart {
        var ls, c :| Called(text, s, brk, width, q, ls, c);
        assert Called(text, r, brk, width, q, ls, c);
      } else {
        assert q == p;
        assert Called(text, r, brk, width, p, laststart, current);
      }
    }
  }

  lemma UntouchedText(text: seq<Byte>, brk: Byte, width: int)
    ensures InPlace(text, text, brk, width, 0, 0, 0)
  {
  }

  /** One byte that starts no break: where the last space is now. */
  lemma ByteStays(text: seq<Byte>, s: seq<Byte>, brk: Byte, width: int, current: int, laststart: int, lastspace: int)
    requires InPlace(text, s, brk, width, current, laststart, lastspace) && current < |s| && text[current] != brk
    requires text[current] == SPACE || current - laststart < width || laststart == lastspace
    requires text[current] == SPACE ==> current - laststart < width
    ensures InPlace(text, s, brk, width, current + 1, laststart, if text[current] == SPACE then current else lastspace)
  {
    hide Bounded, AllCalled, OnlySpacesBroken;
  }

  /** A line that ends at the break put at `p`. */
  lemma LineBroken(text: seq<Byte>, s: seq<Byte>, brk: Byte, width: int,
                   current: int, laststart: int, lastspace: int, p: int, space: int)
    requires InPlace(text, s, brk, width, current, laststart, lastspace)
    requires laststart <= p <= current < |s| && (p == current || p == lastspace)
    requires text[p] == brk || (text[p] == SPACE && current - laststart >= width && text[current] != brk)
    requires p == current || (text[current] != SPACE && p > laststart)
    requires space == if text[p] == brk then p + 1 else p
    ensures InPlace(text, s[p := brk], brk, width, current + 1, p + 1, space)
  {
    hide Bounded, AllCalled, OnlySpacesBroken;
    LineEnds(text, s, brk, width, current, laststart, lastspace, p);
  }

  /** Without a space in the line the byte before it is written, which is a break already. */
  lemma NoSpaceInLine(text: seq<Byte>, s: seq<Byte>, brk: Byte, width: int, current: int, laststart: int,
                      lastspace: int)
    requires InPlace(text, s, brk, width, current, laststart, lastspace) && current < |s|
    requires text[current] != brk && text[current] != SPACE && lastspace < laststart
    ensures 0 <= lastspace < |s| && s[lastspace := brk] == s && lastspace + 1 == laststart
    ensures InPlace(text, s, brk, width, current + 1, laststart, lastspace)
  {
    hide Bounded, AllCalled, OnlySpacesBroken;
  }

  method WrapInPlace(text: seq<Byte>, width: int, brk: Byte) returns (result: seq<Byte>)
    ensures OnlySpacesBroken(text, result, brk)
    ensures Bounded(result, brk, width, |result|)
    ensures AllCalled(text, result, brk, width, |result|)
  {
    hide Bounded, AllCalled, OnlySpacesBroken, InPlace;
    UntouchedText(text, brk, width);
    var len := |text|;
    var out := new Byte[len](i requires 0 <= i < len => text[i]);
    assert out[..] == text;
    var laststart, lastspace := 0, 0;
    for current := 0 to len
      invariant InPlace(text, out[..], brk, width, current, laststart, lastspace)
    {
      ghost var s := out[..];
      var c := text[current];
      InPlaceBounds(text, s, brk, width, current, laststart, lastspace);
      if c == brk {
        LineBroken(text, s, brk, width, current, laststart, lastspace, current, current + 1);
        assert s[current := brk] == s;
        laststart := current + 1;
        lastspace := current + 1;
      } else if c == SPACE {
        if current - laststart >= width {
          LineBroken(text, s, brk, width, current, laststart, lastspace, current, current);
          out[current] := brk;
          assert out[..] == s[current := brk];
          laststart := current + 1;
        } else {
          ByteStays(text, s, brk, width, current, laststart, lastspace);
        }
        lastspace := current;
      } else if current - laststart >= width && laststart != lastspace {
        if lastspace > laststart {
          LineBroken(text, s, brk, width, current, laststart, lastspace, lastspace, lastspace);
        } else {
          NoSpaceInLine(text, s, brk, width, current, laststart, lastspace);
        }
        out[lastspace] := brk;
        assert out[..] == s[lastspace := brk];
        laststart := lastspace + 1;
      } else {
        ByteStays(text, s, brk, width, current, laststart, lastspace);
      }
    }
    result := out[..];
    assert |result| == len;
    LastLine(text, result, brk, width, laststart, lastspace);
  }

  lemma InPlaceBounds(text: seq<Byte>, s: seq<Byte>, brk: Byte, width: int, current: int, laststart: int,
                      lastspace: int)
    requires InPlace(text, s, brk, width, current, laststart, lastspace) && current < |s|
    ensures |s| == |text| && 0 <= laststart <= current && 0 <= lastspace
    ensures s[current] == text[current]
    ensures lastspace > laststart ==> lastspace < current && text[lastspace] == SPACE != brk
    ensures lastspace < laststart ==> lastspace == laststart - 1
  {
  }

  lemma LastLine(text: seq<Byte>, s: seq<Byte>, brk: Byte, width: int, laststart: int, lastspace: int)
    requires InPlace(text, s, brk, width, |s|, laststart, lastspace)
    ensures OnlySpacesBroken(text, s, brk) && Bounded(s, brk, width, |s|) && AllCalled(text, s, brk, width, |s|)
  {
    forall i, j, k | 0 <= i <= k <= j < |s| && Usable(i, width) <= k && s[k] == 0x20 && LineFrom(s, brk, i, j)
      ensures j - i < width
    {
      if j >= laststart {
        assert i == laststart;
        assert k <= lastspace;
      }
    }
  }

  // ---------- the general path ----------

  /** Why a line ends: a break that the text held, a space that became one, or a cut. */
  datatype Break = Kept | Spaced | Cut

  /** The bytes `start` to `end` of the text, and how they end. */
  datatype Line = Line(start: nat, end: nat, ending: Break)

  predicate BreakAt(text: seq<Byte>, brk: seq<Byte>, i: nat) {
    i + |brk| <= |text| && text[i..i + |brk|] == brk
  }

  /** The position in the text at which the next line starts. */
  function After(l: Line, brk: seq<Byte>): nat {
    match l.ending
    case Kept => l.end + |brk|
    case Spaced => l.end + 1
    case Cut => l.end
  }

  function Position(lines: seq<Line>, brk: seq<Byte>): nat {
    if lines == [] then 0 else After(lines[|lines| - 1], brk)
  }

  predicate LinesInside(text: seq<Byte>, lines: seq<Line>) {
    forall i :: 0 <= i < |lines| ==> lines[i].start <= lines[i].end <= |text|
  }

  /** What `lines` print: each with a break after it. */
  function Rendered(text: seq<Byte>, brk: seq<Byte>, lines: seq<Line>): seq<Byte>
    requires LinesInside(text, lines)
  {
    if lines == [] then []
    else
      var k := |lines| - 1;
      Rendered(text, brk, lines[..k]) + text[lines[k].start..lines[k].end] + brk
  }

  predicate NoSpace(text: seq<Byte>, lo: int, hi: int) {
    forall m :: lo <= m < hi && 0 <= m < |text| ==> text[m] != 0x20
  }

  predicate NoBreak(text: seq<Byte>, brk: seq<Byte>, lo: int, hi: int) {
    forall m :: lo <= m < hi && 0 <= m ==> !BreakAt(text, brk, m)
  }

  function Max(a: int, b: int): int {
    if a < b then b else a
  }

  /** A line after a cut holds a byte at least. */
  function Lead(lines: seq<Line>): (lead: int)
    ensures 0 <= lead <= 1
  {
    if lines != [] && lines[|lines| - 1].ending == Cut then 1 else 0
  }

  /** A line fits the width, as far as spaces, and with cutting every byte, offer a way to break it; and
      no break of the text is inside it. */
  predicate Fits(text: seq<Byte>, brk: seq<Byte>, width: int, docut: bool, lead: int, start: int, end: int) {
    && (if docut then end - start <= Max(width, lead)
        else end - start <= width || NoSpace(text, Usable(start, width), end))
    && NoBreak(text, brk, start, end)
  }

  /** Why the line was broken where it was. */
  ghost predicate Caused(text: seq<Byte>, brk: seq<Byte>, width: int, docut: bool, l: Line) {
    match l.ending
    case Kept => BreakAt(text, brk, l.end)
    case Spaced =>
      && Usable(l.start, width) <= l.end < |text| && text[l.end] == 0x20
      && exists c :: l.end <= c < |text| && c - l.start >= width && Reaches(text, brk, l.end, c)
    case Cut =>
      && docut && l.end < |text| && l.end - l.start >= width
      && NoSpace(text, l.start + 1, l.end) && text[l.end] != 0x20 && !BreakAt(text, brk, l.end)
  }

  /** No space and no break of the text lies between the space at `p` and `c`. */
  predicate Reaches(text: seq<Byte>, brk: seq<Byte>, p: int, c: int) {
    NoSpace(text, p + 1, c + 1) && NoBreak(text, brk, p, c + 1)
  }

  /** A line that fits and was broken for a reason. */
  ghost predicate IsLine(text: seq<Byte>, brk: seq<Byte>, width: int, docut: bool, lead: int, l: Line) {
    && l.start + lead <= l.end <= |text|
    && Fits(text, brk, width, docut, lead, l.start, l.end)
    && Caused(text, brk, width, docut, l)
  }

  /** The lines follow one another through the text, each fits, and each was broken for a reason. */
  ghost predicate Wraps(text: seq<Byte>, brk: seq<Byte>, width: int, docut: bool, lines: seq<Line>) {
    && Position(lines, brk) <= |text|
    && forall i :: 0 <= i < |lines| ==>
         && lines[i].start == Position(lines[..i], brk)
         && IsLine(text, brk, width, docut, Lead(lines[..i]), lines[i])
  }

  lemma WrapsSnoc(text: seq<Byte>, brk: seq<Byte>, width: int, docut: bool, lines: seq<Line>, l: Line)
    requires Wraps(text, brk, width, docut, lines)
    requires l.start == Position(lines, brk) && After(l, brk) <= |text|
    requires IsLine(text, brk, width, docut, Lead(lines), l)
    ensures Wraps(text, brk, width, docut, lines + [l])
    ensures Rendered(text, brk, lines + [l]) == Rendered(text, brk, lines) + text[l.start..l.end] + brk
  {
    var more := lines + [l];
    assert more[..|lines|] == lines;
    forall i | 0 <= i < |lines| ensures more[..i] == lines[..i] && more[i] == lines[i] {}
  }

  /** What the loop knows at byte `current`, in a line that begins at `laststart`. */
  ghost predicate General(text: seq<Byte>, brk: seq<Byte>, width: int, docut: bool, lead: int,
                          current: int, laststart: int, lastspace: int)
  {
    && 0 <= laststart <= laststart + lead <= current <= |text| && 0 <= lastspace
    && (lastspace == laststart - 1 || lastspace == laststart ||
        (laststart < lastspace < current && text[lastspace] == SPACE))
    && NoSpace(text, Max(laststart, lastspace + 1), current)
    && NoBreak(text, brk, laststart, current)
    && (docut ==> current - laststart <= Max(width, lead))
    && (lastspace > laststart ==> current - laststart <= width)
    && (width <= 0 ==> NoSpace(text, laststart, current))
  }

  /** The lead of the line, `laststart` and `lastspace` after the byte at `current`, where no break of the text
      begins. */
  function AfterByte(text: seq<Byte>, width: int, docut: bool, lead: int, current: int, laststart: int, lastspace: int):
      (int, int, int)
    requires 0 <= current < |text|
  {
    var full := current - laststart >= width;
    if text[current] == SPACE then
      if full then (0, current + 1, current) else (lead, laststart, current)
    else if full && docut && laststart >= lastspace then (1, current, current)
    else if full && laststart < lastspace then (0, lastspace + 1, lastspace + 1)
    else (lead, laststart, lastspace)
  }

  lemma Advance(text: seq<Byte>, brk: seq<Byte>, width: int, docut: bool, lead: int,
                current: int, laststart: int, lastspace: int)
    requires General(text, brk, width, docut, lead, current, laststart, lastspace) && 0 <= lead <= 1
    requires current < |text| && !BreakAt(text, brk, current)
    ensures var (lead', start, space) := AfterByte(text, width, docut, lead, current, laststart, lastspace);
      General(text, brk, width, docut, lead', current + 1, start, space)
  {
    hide BreakAt;
  }

  lemma FreshLine(text: seq<Byte>, brk: seq<Byte>, width: int, docut: bool, at: int)
    requires 0 <= at <= |text|
    ensures General(text, brk, width, docut, 0, at, at, at)
  {
  }

  /** `out` is these lines of the text, and then what is left, which fits too. */
  ghost predicate WrapsInto(text: seq<Byte>, width: int, brk: seq<Byte>, docut: bool, lines: seq<Line>,
                            out: seq<Byte>) {
    && Wraps(text, brk, width, docut, lines)
    && Position(lines, brk) + Lead(lines) <= |text|
    && Fits(text, brk, width, docut, Lead(lines), Position(lines, brk), |text|)
    && out == Rendered(text, brk, lines) + text[Position(lines, brk)..]
  }

  method WrapGeneral(text: seq<Byte>, width: int, brk: seq<Byte>, docut: bool) returns (out: seq<Byte>)
    requires brk != []
    ensures exists lines :: WrapsInto(text, width, brk, docut, lines, out)
  {
    hide Fits, Caused, Rendered, Wraps, General, NoSpace, NoBreak, BreakAt, Position, LinesInside, Lead, IsLine;
    var len := |text|;
    var laststart, lastspace, current := 0, 0, 0;
    ghost var lines: seq<Line> := [];
    out := [];
    NothingWrapped(text, brk, width, docut);
    FreshLine(text, brk, width, docut, 0);
    while current < len
      invariant 0 <= laststart <= current <= len && 0 <= lastspace <= current
      invariant General(text, brk, width, docut, Lead(lines), current, laststart, lastspace)
      invariant Wraps(text, brk, width, docut, lines) && Position(lines, brk) == laststart
      invariant LinesInside(text, lines)
      invariant out == Rendered(text, brk, lines)
    {
      var c := text[current];
      BreakStarts(text, brk, current);
      if c == brk[0] && BreakAt(text, brk, current) {
        lines := EndLine(text, brk, width, docut, lines, current, laststart, lastspace, Line(laststart, current, Kept));
        out := out + text[laststart..current + |brk|];
        current := current + |brk| - 1;
        laststart := current + 1;
        lastspace := current + 1;
        FreshLine(text, brk, width, docut, laststart);
      } else {
        Advance(text, brk, width, docut, Lead(lines), current, laststart, lastspace);
        if c == SPACE {
          if current - laststart >= width {
            lines := EndLine(text, brk, width, docut, lines, current, laststart, lastspace,
                             Line(laststart, current, Spaced));
            out := out + text[laststart..current];
            out := out + brk;
            laststart := current + 1;
          }
          lastspace := current;
        } else if current - laststart >= width && docut && laststart >= lastspace {
          lines := EndLine(text, brk, width, docut, lines, current, laststart, lastspace,
                           Line(laststart, current, Cut));
          out := out + text[laststart..current];
          out := out + brk;
          laststart := current;
          lastspace := current;
        } else if current - laststart >= width && laststart < lastspace {
          lines := EndLine(text, brk, width, docut, lines, current, laststart, lastspace,
                           Line(laststart, lastspace, Spaced));
          out := out + text[laststart..lastspace];
          out := out + brk;
          laststart := lastspace + 1;
          lastspace := laststart;
        }
      }
      current := current + 1;
    }
    LastFits(text, brk, width, docut, Lead(lines), laststart, lastspace);
    if laststart != current {
      out := out + text[laststart..current];
    }
    assert WrapsInto(text, width, brk, docut, lines, out);
  }

  /** A break of the text shows by its first byte. */
  lemma BreakStarts(text: seq<Byte>, brk: seq<Byte>, i: nat)
    requires brk != [] && i < |text|
    ensures BreakAt(text, brk, i) ==> text[i] == brk[0] && i + |brk| <= |text|
  {
    assert BreakAt(text, brk, i) ==> text[i] == text[i..i + |brk|][0];
  }

  lemma NothingWrapped(text: seq<Byte>, brk: seq<Byte>, width: int, docut: bool)
    ensures Wraps(text, brk, width, docut, []) && LinesInside(text, [])
    ensures Rendered(text, brk, []) == [] && Position([], brk) == 0 && Lead([]) == 0
  {
  }

  /** One line more, for whichever reason the loop ends it. */
  lemma EndLine(text: seq<Byte>, brk: seq<Byte>, width: int, docut: bool, lines: seq<Line>,
                current: int, laststart: int, lastspace: int, l: Line) returns (more: seq<Line>)
    requires brk != [] && General(text, brk, width, docut, Lead(lines), current, laststart, lastspace)
    requires current < |text|
    requires Wraps(text, brk, width, docut, lines) && Position(lines, brk) == laststart && LinesInside(text, lines)
    requires l.start == laststart
    requires match l.ending
             case Kept => l.end == current && BreakAt(text, brk, current)
             case Spaced =>
               && current - laststart >= width && !BreakAt(text, brk, current)
               && ((l.end == current && text[current] == SPACE) ||
                   (l.end == lastspace > laststart && text[current] != SPACE))
             case Cut =>
               && l.end == current && docut && current - laststart >= width && !BreakAt(text, brk, current)
               && laststart >= lastspace && text[current] != SPACE
    ensures more == lines + [l] && LinesInside(text, more)
    ensures Wraps(text, brk, width, docut, more) && Position(more, brk) == After(l, brk) <= |text|
    ensures Lead(more) == if l.ending == Cut then 1 else 0
    ensures Rendered(text, brk, more) == Rendered(text, brk, lines) + text[l.start..l.end] + brk
    ensures l.ending == Kept ==> Rendered(text, brk, more) == Rendered(text, brk, lines) + text[l.start..l.end + |brk|]
  {
    hide BreakAt, Fits, NoBreak, NoSpace, Rendered;
    more := lines + [l];
    ghost var before, piece := Rendered(text, brk, lines), text[l.start..l.end];
    assert before + piece + brk == before + (piece + brk);
    EndFits(text, brk, width, docut, Lead(lines), current, laststart, lastspace, l.end);
    if l.ending == Kept {
      KeptBreak(text, brk, l);
    } else {
      EndCaused(text, brk, width, docut, Lead(lines), current, laststart, lastspace, l);
    }
    WrapsSnoc(text, brk, width, docut, lines, l);
  }

  lemma KeptBreak(text: seq<Byte>, brk: seq<Byte>, l: Line)
    requires l.ending == Kept && l.start <= l.end && BreakAt(text, brk, l.end)
    ensures l.end + |brk| <= |text| && text[l.start..l.end + |brk|] == text[l.start..l.end] + brk
  {
  }

  lemma EndFits(text: seq<Byte>, brk: seq<Byte>, width: int, docut: bool, lead: int,
                current: int, laststart: int, lastspace: int, end: int)
    requires General(text, brk, width, docut, lead, current, laststart, lastspace) && 0 <= lead <= 1
    requires end == current || end == lastspace > laststart
    ensures Fits(text, brk, width, docut, lead, laststart, end) && laststart + lead <= end
  {
    hide BreakAt;
  }

  lemma EndCaused(text: seq<Byte>, brk: seq<Byte>, width: int, docut: bool, lead: int,
                  current: int, laststart: int, lastspace: int, l: Line)
    requires General(text, brk, width, docut, lead, current, laststart, lastspace) && current < |text|
    requires l.start == laststart && current - laststart >= width && !BreakAt(text, brk, current)
    requires if l.ending == Cut then l.end == current && docut && laststart >= lastspace && text[current] != SPACE
             else l.ending == Spaced && ((l.end == current && text[current] == SPACE) ||
                                         (l.end == lastspace > laststart && text[current] != SPACE))
    ensures Caused(text, brk, width, docut, l)
  {
    hide BreakAt;
    if l.ending == Spaced {
      assert Reaches(text, brk, l.end, current);
    }
  }

  lemma LastFits(text: seq<Byte>, brk: seq<Byte>, width: int, docut: bool, lead: int, laststart: int, lastspace: int)
    requires General(text, brk, width, docut, lead, |text|, laststart, lastspace)
    ensures Fits(text, brk, width, docut, lead, laststart, |text|) && laststart + lead <= |text|
  {
  }

  // ---------- conservation ----------

  /** The text that a line stands for, its break included. */
  function Original(text: seq<Byte>, brk: seq<Byte>, l: Line): seq<Byte>
    requires l.start <= l.end <= |text|
  {
    text[l.start..l.end] + (match l.ending case Kept => brk case Spaced => [SPACE] case Cut => [])
  }

  function Originals(text: seq<Byte>, brk: seq<Byte>, lines: seq<Line>): seq<Byte>
    requires LinesInside(text, lines)
  {
    if lines == [] then []
    else
      var k := |lines| - 1;
      Originals(text, brk, lines[..k]) + Original(text, brk, lines[k])
  }

  /** Nothing is lost: with each break put back to what it replaced, the output is the text. */
  lemma {:induction false} WrapConserves(text: seq<Byte>, brk: seq<Byte>, width: int, docut: bool, lines: seq<Line>)
    requires Wraps(text, brk, width, docut, lines)
    ensures LinesInside(text, lines)
    ensures Originals(text, brk, lines) + text[Position(lines, brk)..] == text
  {
    hide Wraps, Caused, Original, After;
    if lines != [] {
      var k := |lines| - 1;
      WrapsInit(text, brk, width, docut, lines);
      WrapConserves(text, brk, width, docut, lines[..k]);
      OriginalInPlace(text, brk, width, docut, lines[k]);
    }
  }

  lemma WrapsInit(text: seq<Byte>, brk: seq<Byte>, width: int, docut: bool, lines: seq<Line>)
    requires Wraps(text, brk, width, docut, lines) && lines != []
    ensures var k := |lines| - 1;
      && Wraps(text, brk, width, docut, lines[..k]) && LinesInside(text, lines)
      && lines[k].start == Position(lines[..k], brk) && After(lines[k], brk) <= |text|
      && Caused(text, brk, width, docut, lines[k])
  {
    hide Fits, Caused;
    var k := |lines| - 1;
    var init := lines[..k];
    assert forall i :: 0 <= i < k ==> init[i] == lines[i] && init[..i] == lines[..i];
  }

  lemma OriginalInPlace(text: seq<Byte>, brk: seq<Byte>, width: int, docut: bool, l: Line)
    requires l.start <= l.end && After(l, brk) <= |text| && Caused(text, brk, width, docut, l)
    ensures text[l.start..] == Original(text, brk, l) + text[After(l, brk)..]
  {
    hide NoSpace, NoBreak;
    assert text[l.end..] == text[l.end..After(l, brk)] + text[After(l, brk)..];
    assert text[l.start..] == text[l.start..l.end] + text[l.end..];
  }

  // ---------- there is one wrapping ----------

  lemma NoTwoBroken(text: seq<Byte>, s: seq<Byte>, t: seq<Byte>, brk: Byte, width: int, p: nat)
    requires OnlySpacesBroken(text, s, brk) && OnlySpacesBroken(text, t, brk)
    requires Bounded(s, brk, width, |s|) && AllCalled(text, t, brk, width, |t|)
    requires p < |text| && (forall i :: 0 <= i < p ==> s[i] == t[i])
    ensures s[p] == text[p] ==> t[p] == text[p]
  {
    if s[p] == text[p] != t[p] {
      var ls, c :| Called(text, t, brk, width, p, ls, c);
      assert LineFrom(s, brk, ls, c);
      assert false;
    }
  }

  /** In place: what is broken is determined. */
  lemma {:induction false} InPlaceIsUnique(text: seq<Byte>, s: seq<Byte>, t: seq<Byte>, brk: Byte, width: int, n: nat)
    requires OnlySpacesBroken(text, s, brk) && OnlySpacesBroken(text, t, brk) && n <= |text|
    requires Bounded(s, brk, width, |s|) && AllCalled(text, s, brk, width, |s|)
    requires Bounded(t, brk, width, |t|) && AllCalled(text, t, brk, width, |t|)
    ensures forall i :: 0 <= i < n ==> s[i] == t[i]
  {
    hide Bounded, AllCalled;
    if n > 0 {
      InPlaceIsUnique(text, s, t, brk, width, n - 1);
      NoTwoBroken(text, s, t, brk, width, n - 1);
      NoTwoBroken(text, t, s, brk, width, n - 1);
    }
  }

  /** Where a line ends and why is determined by where it starts. */
  lemma LineIsUnique(text: seq<Byte>, brk: seq<Byte>, width: int, docut: bool, lead: int, l: Line, m: Line)
    requires l.start == m.start && 0 <= lead <= 1
    requires IsLine(text, brk, width, docut, lead, l) && IsLine(text, brk, width, docut, lead, m)
    ensures l == m
  {
    hide BreakAt;
    EndsNoLater(text, brk, width, docut, lead, l, m);
    EndsNoLater(text, brk, width, docut, lead, m, l);
  }

  lemma EndsNoLater(text: seq<Byte>, brk: seq<Byte>, width: int, docut: bool, lead: int, l: Line, m: Line)
    requires l.start == m.start && 0 <= lead <= 1
    requires IsLine(text, brk, width, docut, lead, l) && IsLine(text, brk, width, docut, lead, m)
    ensures l.end >= m.end
  {
    hide BreakAt;
    NoLongerRest(text, brk, width, docut, lead, l, m.end);
  }

  /** What fits from the start of a line goes no further than the line, if it ends where a line could. */
  lemma NoLongerRest(text: seq<Byte>, brk: seq<Byte>, width: int, docut: bool, lead: int, l: Line, end: nat)
    requires 0 <= lead <= 1 && IsLine(text, brk, width, docut, lead, l)
    requires l.start + lead <= end <= |text| && Fits(text, brk, width, docut, lead, l.start, end)
    requires end == |text| || BreakAt(text, brk, end) || text[end] == 0x20 || NoSpace(text, l.start + 1, end)
    ensures end <= l.end
  {
    hide BreakAt;
    match l.ending
    case Kept => assert BreakAt(text, brk, l.end);
    case Spaced =>
      var c :| l.end <= c < |text| && c - l.start >= width && Reaches(text, brk, l.end, c);
      assert l.end < end <= c ==> !BreakAt(text, brk, end);
    case Cut =>
  }

  /** The lines of a wrapping are determined. */
  lemma {:induction false} LinesAreUnique(text: seq<Byte>, width: int, brk: seq<Byte>, docut: bool, ls: seq<Line>,
                                          ms: seq<Line>, n: nat)
    requires Wraps(text, brk, width, docut, ls) && Wraps(text, brk, width, docut, ms) && n <= |ls| && n <= |ms|
    ensures ls[..n] == ms[..n]
  {
    hide Fits, Caused, IsLine, Position, Lead, Wraps;
    if n > 0 {
      LinesAreUnique(text, width, brk, docut, ls, ms, n - 1);
      WrapsAt(text, width, brk, docut, ls, n - 1);
      WrapsAt(text, width, brk, docut, ms, n - 1);
      LineIsUnique(text, brk, width, docut, Lead(ls[..n - 1]), ls[n - 1], ms[n - 1]);
      assert ls[..n] == ls[..n - 1] + [ls[n - 1]] && ms[..n] == ms[..n - 1] + [ms[n - 1]];
    }
  }

  lemma WrapsAt(text: seq<Byte>, width: int, brk: seq<Byte>, docut: bool, lines: seq<Line>, i: nat)
    requires Wraps(text, brk, width, docut, lines) && i < |lines|
    ensures lines[i].start == Position(lines[..i], brk)
    ensures IsLine(text, brk, width, docut, Lead(lines[..i]), lines[i])
  {
    hide IsLine, Position, Lead;
  }

  lemma NoMoreLines(text: seq<Byte>, width: int, brk: seq<Byte>, docut: bool, ls: seq<Line>, ms: seq<Line>,
                    out: seq<Byte>)
    requires brk != [] && WrapsInto(text, width, brk, docut, ls, out) && Wraps(text, brk, width, docut, ms)
    ensures |ls| >= |ms|
  {
    hide Fits, Caused, Rendered;
    if |ls| < |ms| {
      var n := |ls|;
      LinesAreUnique(text, width, brk, docut, ls, ms, n);
      assert ls[..n] == ls;
      NoLongerRest(text, brk, width, docut, Lead(ls), ms[n], |text|);
      NotAtEnd(text, brk, width, docut, ms[n]);
    }
  }

  lemma NotAtEnd(text: seq<Byte>, brk: seq<Byte>, width: int, docut: bool, l: Line)
    requires brk != [] && l.end <= |text| && Caused(text, brk, width, docut, l)
    ensures l.end < |text|
  {
  }

  /** The text, the width, the break and whether to cut determine what `wordwrap` returns. */
  lemma WrappingIsUnique(text: seq<Byte>, width: int, brk: seq<Byte>, docut: bool, out: seq<Byte>, out': seq<Byte>)
    requires brk != [] && IsWrapping(text, width, brk, docut, out) && IsWrapping(text, width, brk, docut, out')
    ensures out == out'
  {
    hide Wraps, Fits, Rendered, Bounded, AllCalled;
    if |brk| == 1 && !docut {
      InPlaceIsUnique(text, out, out', brk[0], width, |text|);
    } else {
      var ls :| WrapsInto(text, width, brk, docut, ls, out);
      var ms :| WrapsInto(text, width, brk, docut, ms, out');
      NoMoreLines(text, width, brk, docut, ls, ms, out);
      NoMoreLines(text, width, brk, docut, ms, ls, out');
      LinesAreUnique(text, width, brk, docut, ls, ms, |ls|);
      assert ls[..|ls|] == ls && ms[..|ms|] == ms;
    }
  }

  // ---------- the entry point ----------

  datatype Outcome = Wrapped(out: seq<Byte>) | EmptyBreak | CutAtZeroWidth

  /** What a successful call returns, whichever path it takes. */
  ghost predicate IsWrapping(text: seq<Byte>, width: int, brk: seq<Byte>, docut: bool, out: seq<Byte>)
    requires brk != []
  {
    if |brk| == 1 && !docut then
      && OnlySpacesBroken(text, out, brk[0]) && Bounded(out, brk[0], width, |out|)
      && AllCalled(text, out, brk[0], width, |out|)
    else
      exists lines :: WrapsInto(text, width, brk, docut, lines, out)
  }

  method PhpWordwrap(text: seq<Byte>, width: int, brk: seq<Byte>, docut: bool) returns (r: Outcome)
    ensures text == [] ==> r == Wrapped([])
    ensures text != [] ==> (r == EmptyBreak <==> brk == [])
    ensures text != [] && brk != [] ==> (r == CutAtZeroWidth <==> width == 0 && docut)
    ensures r.Wrapped? && text != [] ==> brk != [] && IsWrapping(text, width, brk, docut, r.out)
  {
    if text == [] {
      return Wrapped([]);
    }
    if brk == [] {
      return EmptyBreak;
    }
    if width == 0 && docut {
      return CutAtZeroWidth;
    }
    if |brk| == 1 && !docut {
      var out := WrapInPlace(text, width, brk[0]);
      return Wrapped(out);
    }
    var out := WrapGeneral(text, width, brk, docut);
    return Wrapped(out);
  }
}
