/** Splitting, joining and replacing: `php_explode` and `php_implode` of `src/builtins.rs`, and `find`
    and `replace` of `src/bytes.rs`. */
module Explode {
  import opened Common
  import opened StoredStrings

  predicate OccursAt(s: seq<Byte>, needle: seq<Byte>, i: nat) {
    i + |needle| <= |s| && s[i..i + |needle|] == needle
  }

  /** The offset of the first `needle` in `s`. */
  function Find(s: seq<Byte>, needle: seq<Byte>): (at: Option<nat>)
    ensures at.Some? ==> OccursAt(s, needle, at.value) && forall i :: 0 <= i < at.value ==> !OccursAt(s, needle, i)
    ensures at.None? ==> forall i :: 0 <= i ==> !OccursAt(s, needle, i)
  {
    FindFrom(s, needle, 0)
  }

  function FindFrom(s: seq<Byte>, needle: seq<Byte>, from: nat): (at: Option<nat>)
    requires forall i :: 0 <= i < from ==> !OccursAt(s, needle, i)
    ensures at.Some? ==> OccursAt(s, needle, at.value) && forall i :: 0 <= i < at.value ==> !OccursAt(s, needle, i)
    ensures at.None? ==> forall i :: 0 <= i ==> !OccursAt(s, needle, i)
    decreases |s| - from
  {
    if OccursAt(s, needle, from) then Some(from)
    else if from >= |s| then None
    else FindFrom(s, needle, from + 1)
  }

  predicate Free(s: seq<Byte>, needle: seq<Byte>) {
    forall i :: 0 <= i <= |s| ==> !OccursAt(s, needle, i)
  }

  /** The pieces between the occurrences of `sep`, found left to right; at most `cap` of them, the last
      keeping the remainder. */
  function Pieces(s: seq<Byte>, sep: seq<Byte>, cap: nat): (parts: seq<seq<Byte>>)
    requires sep != [] && cap >= 1
    ensures 1 <= |parts| <= cap && |parts| <= |s| + 1
    decreases |s|
  {
    if cap == 1 then [s]
    else match Find(s, sep)
      case None => [s]
      case Some(at) => [s[..at]] + Pieces(s[at + |sep|..], sep, cap - 1)
  }

  lemma PiecesStep(s: seq<Byte>, sep: seq<Byte>, cap: nat)
    requires sep != [] && cap >= 1
    ensures cap == 1 || Find(s, sep).None? ==> Pieces(s, sep, cap) == [s]
    ensures cap > 1 && Find(s, sep).Some? ==>
      var at := Find(s, sep).value; Pieces(s, sep, cap) == [s[..at]] + Pieces(s[at + |sep|..], sep, cap - 1)
  {
  }

  /** `join`. */
  function Join(parts: seq<seq<Byte>>, glue: seq<Byte>): seq<Byte> {
    if parts == [] then []
    else if |parts| == 1 then parts[0]
    else parts[0] + glue + Join(parts[1..], glue)
  }

  /** Joining the pieces with the separator gives back what was split, whatever the cap. */
  lemma {:induction false} JoinOfPieces(s: seq<Byte>, sep: seq<Byte>, cap: nat)
    requires sep != [] && cap >= 1
    ensures Join(Pieces(s, sep, cap), sep) == s
    decreases |s|
  {
    hide Pieces, OccursAt;
    PiecesStep(s, sep, cap);
    if cap > 1 && Find(s, sep).Some? {
      var at := Find(s, sep).value;
      FoundInside(s, sep, at);
      var rest := s[at + |sep|..];
      JoinOfPieces(rest, sep, cap - 1);
      JoinCons(s[..at], Pieces(rest, sep, cap - 1), sep);
      SplitAtFound(s, sep, at);
    }
  }

  lemma SplitAtFound(s: seq<Byte>, needle: seq<Byte>, at: nat)
    requires Find(s, needle) == Some(at)
    ensures at + |needle| <= |s| && s == s[..at] + needle + s[at + |needle|..]
  {
  }

  lemma JoinCons(part: seq<Byte>, rest: seq<seq<Byte>>, glue: seq<Byte>)
    requires rest != []
    ensures Join([part] + rest, glue) == part + glue + Join(rest, glue)
  {
    assert ([part] + rest)[1..] == rest;
  }

  lemma OccursInPrefix(s: seq<Byte>, needle: seq<Byte>, k: nat, i: nat)
    requires needle != [] && k <= |s|
    ensures OccursAt(s[..k], needle, i) ==> i < k && OccursAt(s, needle, i)
  {
    if OccursAt(s[..k], needle, i) {
      assert s[i..i + |needle|] == s[..k][i..i + |needle|];
    }
  }

  lemma OccursByte(s: seq<Byte>, x: Byte, i: nat)
    ensures OccursAt(s, [x], i) <==> i < |s| && s[i] == x
  {
    if i < |s| {
      assert s[i..i + 1] == [s[i]];
    }
  }

  /** No piece but the last holds the separator, and none does when the cap was not reached. */
  lemma {:induction false} PiecesAreFree(s: seq<Byte>, sep: seq<Byte>, cap: nat)
    requires sep != [] && cap >= 1
    ensures var parts := Pieces(s, sep, cap);
      && (forall i :: 0 <= i < |parts| - 1 ==> Free(parts[i], sep))
      && (|parts| < cap ==> Free(parts[|parts| - 1], sep))
    decreases |s|
  {
    hide Pieces, OccursAt;
    PiecesStep(s, sep, cap);
    if cap > 1 && Find(s, sep).Some? {
      var at := Find(s, sep).value;
      FoundInside(s, sep, at);
      var rest := Pieces(s[at + |sep|..], sep, cap - 1);
      PiecesAreFree(s[at + |sep|..], sep, cap - 1);
      forall i | 0 <= i <= at ensures !OccursAt(s[..at], sep, i) {
        OccursInPrefix(s, sep, at, i);
      }
      var parts := Pieces(s, sep, cap);
      assert parts == [s[..at]] + rest;
      assert forall i :: 1 <= i < |parts| ==> parts[i] == rest[i - 1];
    }
  }

  /** A cap above the length is none: the pieces are those of any other such cap. */
  lemma {:induction false} LooseCap(s: seq<Byte>, sep: seq<Byte>, cap: nat, cap': nat)
    requires sep != [] && cap > |s| && cap' > |s|
    ensures Pieces(s, sep, cap) == Pieces(s, sep, cap')
    decreases |s|
  {
    hide Pieces, OccursAt;
    PiecesStep(s, sep, cap);
    PiecesStep(s, sep, cap');
    if cap > 1 && cap' > 1 {
      match Find(s, sep)
      case None =>
      case Some(at) =>
        FoundInside(s, sep, at);
        LooseCap(s[at + |sep|..], sep, cap - 1, cap' - 1);
    } else {
      NothingFound(sep);
    }
  }

  lemma NothingFound(sep: seq<Byte>)
    requires sep != []
    ensures Find([], sep).None?
  {
  }

  /** Where a separator is put after a piece it is the first one found: none is inside the piece, and none is
      made by the end of the piece and the start of the separator. */
  predicate EndsClean(part: seq<Byte>, sep: seq<Byte>) {
    Find(part + sep, sep) == Some(|part|)
  }

  lemma OccursBefore(s: seq<Byte>, rest: seq<Byte>, needle: seq<Byte>, i: nat)
    requires i + |needle| <= |s|
    ensures OccursAt(s + rest, needle, i) <==> OccursAt(s, needle, i)
  {
    assert (s + rest)[i..i + |needle|] == s[i..i + |needle|];
  }

  /** What follows the separator does not matter to where the first one is. */
  lemma FindAcross(part: seq<Byte>, sep: seq<Byte>, rest: seq<Byte>)
    requires sep != []
    ensures Find(part + sep + rest, sep).Some? && Find(part + sep + rest, sep) == Find(part + sep, sep)
    ensures Find(part + sep, sep).value <= |part|
  {
    hide OccursAt, FindFrom;
    var s := part + sep;
    assert OccursAt(s, sep, |part|) by { AtItsPlace(part, sep); }
    OccursBefore(s, rest, sep, |part|);
    var near, far := Find(s, sep), Find(s + rest, sep);
    assert near.Some? && far.Some?;
    assert near.value <= |part| && far.value <= |part|;
    OccursBefore(s, rest, sep, near.value);
    OccursBefore(s, rest, sep, far.value);
    assert far.value <= near.value <= far.value;
  }

  lemma AtItsPlace(part: seq<Byte>, sep: seq<Byte>)
    ensures OccursAt(part + sep, sep, |part|)
  {
    assert (part + sep)[|part|..] == sep;
  }

  /**
    Splitting undoes joining exactly when every part but the last ends clean and, unless the cap stops the search
    before it, the last part holds no separator.
  */
  lemma {:induction false} PiecesOfJoin(parts: seq<seq<Byte>>, sep: seq<Byte>, cap: nat)
    requires parts != [] && sep != [] && cap >= |parts|
    ensures Pieces(Join(parts, sep), sep, cap) == parts <==>
            (forall i :: 0 <= i < |parts| - 1 ==> EndsClean(parts[i], sep)) &&
            (cap == |parts| || Free(parts[|parts| - 1], sep))
    decreases |parts|
  {
    hide Find, OccursAt, Pieces;
    var s := Join(parts, sep);
    PiecesStep(s, sep, cap);
    if |parts| == 1 {
      assert parts == [s];
      FreeIsNotFound(s, sep);
    } else {
      var p, others := parts[0], parts[1..];
      var rest := Join(others, sep);
      assert s == p + sep + rest;
      FindAcross(p, sep, rest);
      PiecesOfJoin(others, sep, cap - 1);
      assert parts == [p] + others;
      var at := Find(s, sep).value;
      assert s[..at] == p ==> at == |p|;
      if at == |p| {
        assert s[..at] == p && s[at + |sep|..] == rest;
      }
      assert forall i :: 1 <= i < |parts| ==> parts[i] == others[i - 1];
    }
  }

  lemma FreeIsNotFound(s: seq<Byte>, sep: seq<Byte>)
    ensures Free(s, sep) <==> Find(s, sep).None?
  {
  }

  /** With a separator of one byte all that comes to no part holding it. */
  lemma OneByteEndsClean(part: seq<Byte>, x: Byte)
    ensures EndsClean(part, [x]) <==> x !in part
    ensures Free(part, [x]) <==> x !in part
  {
    hide Find, OccursAt;
    var s := part + [x];
    forall i: nat ensures OccursAt(s, [x], i) <==> i < |s| && s[i] == x { OccursByte(s, x, i); }
    forall i: nat ensures OccursAt(part, [x], i) <==> i < |part| && part[i] == x { OccursByte(part, x, i); }
    assert forall i :: 0 <= i < |part| ==> s[i] == part[i];
    assert OccursAt(s, [x], |part|);
  }

  // ---------- explode ----------

  datatype Outcome = Parts(parts: seq<seq<Byte>>) | EmptySeparator

  const USIZE_MAX: int := 0xFFFF_FFFF_FFFF_FFFF

  /** The cap that a limit means: 0 is 1, and a negative one is none. */
  function Cap(limit: int): (cap: nat)
    ensures cap >= 1
  {
    if limit == 0 then 1 else if limit > 0 then limit else USIZE_MAX
  }

  /** `parts` are the first `n` of all the pieces, the last of them keeping the remainder. */
  ghost predicate IsCapped(parts: seq<seq<Byte>>, all: seq<seq<Byte>>, n: nat) {
    && 1 <= n <= |all| && |parts| == n
    && parts[..n - 1] == all[..n - 1]
    && (n == |all| ==> parts == all)
  }

  /** `explode` on bytes. A Rust byte string is shorter than 2^63. */
  method PhpExplode(sep: seq<Byte>, whole: seq<Byte>, limit: int) returns (r: Outcome)
    requires |whole| < 0x8000_0000_0000_0000
    requires -0x8000_0000_0000_0000 <= limit < 0x8000_0000_0000_0000
    ensures r.EmptySeparator? <==> sep == []
    ensures sep != [] ==>
      var all := AllPieces(whole, sep);
      && (limit == 0 ==> r == Parts([whole]))
      && (limit > 0 ==> IsCapped(r.parts, all, if limit < |all| then limit else |all|))
      && (limit >= 0 ==> Join(r.parts, sep) == whole)
      && (limit < 0 ==> r == Parts(if -limit < |all| then all[..|all| + limit] else []))
  {
    if sep == [] {
      return EmptySeparator;
    }
    hide Pieces, Join;
    var cap := Cap(limit);
    var parts := SplitUpTo(whole, sep, cap);
    JoinOfPieces(whole, sep, cap);
    PiecesStep(whole, sep, cap);
    CappedPieces(whole, sep, cap);
    if limit < 0 {
      LooseCap(whole, sep, cap, |whole| + 1);
      var drop := -limit;
      parts := parts[..if drop < |parts| then |parts| - drop else 0];
    }
    return Parts(parts);
  }

  /** A cap keeps the first pieces as they are. */
  lemma {:induction false} CappedPieces(s: seq<Byte>, sep: seq<Byte>, cap: nat)
    requires sep != [] && cap >= 1
    ensures var all := AllPieces(s, sep); IsCapped(Pieces(s, sep, cap), all, if cap < |all| then cap else |all|)
    decreases |s|
  {
    hide Pieces, AllPieces, Find, OccursAt;
    PiecesStep(s, sep, cap);
    AllPiecesStep(s, sep);
    if cap > 1 && Find(s, sep).Some? {
      var at := Find(s, sep).value;
      FoundInside(s, sep, at);
      CappedPieces(s[at + |sep|..], sep, cap - 1);
    }
  }

  /** The loop of `explode`. */
  method SplitUpTo(whole: seq<Byte>, sep: seq<Byte>, cap: nat) returns (parts: seq<seq<Byte>>)
    requires sep != [] && cap >= 1
    ensures parts == Pieces(whole, sep, cap)
  {
    hide Pieces, Find, Join, OccursAt;
    parts := [];
    var rest := whole;
    while |parts| + 1 < cap
      invariant |parts| < cap
      invariant parts + Pieces(rest, sep, cap - |parts|) == Pieces(whole, sep, cap)
      decreases |rest|
    {
      var at := Find(rest, sep);
      PiecesStep(rest, sep, cap - |parts|);
      if at.None? {
        break;
      }
      FoundInside(rest, sep, at.value);
      parts := parts + [rest[..at.value]];
      rest := rest[at.value + |sep|..];
    }
    PiecesStep(rest, sep, cap - |parts|);
    parts := parts + [rest];
  }

  // ---------- replace ----------

  /** All the pieces. */
  function AllPieces(s: seq<Byte>, needle: seq<Byte>): (parts: seq<seq<Byte>>)
    requires needle != []
    ensures parts != []
  {
    Pieces(s, needle, |s| + 1)
  }

  lemma AllPiecesStep(s: seq<Byte>, needle: seq<Byte>)
    requires needle != []
    ensures Find(s, needle).None? ==> AllPieces(s, needle) == [s]
    ensures Find(s, needle).Some? ==>
      var at := Find(s, needle).value;
      AllPieces(s, needle) == [s[..at]] + AllPieces(s[at + |needle|..], needle)
  {
    hide OccursAt;
    PiecesStep(s, needle, |s| + 1);
    match Find(s, needle)
    case Some(at) =>
      FoundInside(s, needle, at);
      LooseCap(s[at + |needle|..], needle, |s|, |s[at + |needle|..]| + 1);
    case None =>
  }

  /** `replace`: the pieces around the needle, joined by the replacement. */
  method Replace(hay: seq<Byte>, needle: seq<Byte>, rep: seq<Byte>) returns (out: seq<Byte>, n: nat)
    ensures needle == [] ==> out == hay && n == 0
    ensures needle != [] ==>
      var pieces := AllPieces(hay, needle);
      out == Join(pieces, rep) && n == |pieces| - 1
  {
    if needle == [] {
      return hay, 0;
    }
    hide AllPieces, Join, Find, OccursAt;
    out, n := [], 0;
    var last := 0;
    assert hay[0..] == hay;
    while true
      invariant last <= |hay|
      invariant Replaced(hay[last..], needle, rep, out, n) == Replaced(hay, needle, rep, [], 0)
      decreases |hay| - last
    {
      ghost var rest := hay[last..];
      var at := Find(hay[last..], needle);
      if at.None? {
        ReplaceEnds(rest, needle, rep, out, n);
        break;
      }
      ReplaceStep(rest, needle, rep, at.value, out, n);
      assert rest[..at.value] == hay[last..last + at.value];
      out := out + hay[last..last + at.value];
      out := out + rep;
      last := last + at.value + |needle|;
      n := n + 1;
      assert hay[last..] == rest[at.value + |needle|..];
    }
    out := out + hay[last..];
    StartReplaced(hay, needle, rep);
  }

  /** The output and the count once the pieces of `s` are still to be written. */
  ghost function Replaced(s: seq<Byte>, needle: seq<Byte>, rep: seq<Byte>, out: seq<Byte>, n: nat): (seq<Byte>, nat)
    requires needle != []
  {
    var pieces := AllPieces(s, needle);
    (out + Join(pieces, rep), n + |pieces| - 1)
  }

  lemma StartReplaced(s: seq<Byte>, needle: seq<Byte>, rep: seq<Byte>)
    requires needle != []
    ensures Replaced(s, needle, rep, [], 0) == (Join(AllPieces(s, needle), rep), |AllPieces(s, needle)| - 1)
  {
    var none: seq<Byte> := [];
    assert none + Join(AllPieces(s, needle), rep) == Join(AllPieces(s, needle), rep);
  }

  lemma ReplaceEnds(s: seq<Byte>, needle: seq<Byte>, rep: seq<Byte>, out: seq<Byte>, n: nat)
    requires needle != [] && Find(s, needle).None?
    ensures Replaced(s, needle, rep, out, n) == (out + s, n)
  {
    hide Find, OccursAt, AllPieces;
    AllPiecesStep(s, needle);
  }

  lemma ReplaceStep(s: seq<Byte>, needle: seq<Byte>, rep: seq<Byte>, at: nat, out: seq<Byte>, n: nat)
    requires needle != [] && Find(s, needle) == Some(at)
    ensures at + |needle| <= |s|
    ensures Replaced(s, needle, rep, out, n) == Replaced(s[at + |needle|..], needle, rep, out + s[..at] + rep, n + 1)
  {
    hide Find, OccursAt, AllPieces, Join;
    FoundInside(s, needle, at);
    AllPiecesStep(s, needle);
    var rest := AllPieces(s[at + |needle|..], needle);
    JoinCons(s[..at], rest, rep);
    assert out + (s[..at] + rep + Join(rest, rep)) == (out + s[..at] + rep) + Join(rest, rep);
  }

  lemma FoundInside(s: seq<Byte>, needle: seq<Byte>, at: nat)
    requires Find(s, needle) == Some(at)
    ensures at + |needle| <= |s|
  {
  }

  /** Replacing by the needle itself changes nothing, and no piece kept holds the needle. */
  lemma ReplaceByItself(hay: seq<Byte>, needle: seq<Byte>)
    requires needle != []
    ensures Join(AllPieces(hay, needle), needle) == hay
    ensures forall i :: 0 <= i < |AllPieces(hay, needle)| ==> Free(AllPieces(hay, needle)[i], needle)
  {
    hide Pieces, Join, Free;
    JoinOfPieces(hay, needle, |hay| + 1);
    PiecesAreFree(hay, needle, |hay| + 2);
    LooseCap(hay, needle, |hay| + 1, |hay| + 2);
  }

  // ---------- through stored strings ----------

  /** `implode` joins the stored strings as they are. */
  function Imploded(parts: seq<Text>, glue: Text): Text {
    if parts == [] then []
    else if |parts| == 1 then parts[0]
    else parts[0] + glue + Imploded(parts[1..], glue)
  }

  function StoredParts(parts: seq<seq<Byte>>): seq<Text> {
    if parts == [] then [] else [Stored(parts[0])] + StoredParts(parts[1..])
  }

  lemma {:induction false} ImplodedBytes(parts: seq<seq<Byte>>, glue: seq<Byte>)
    ensures |StoredParts(parts)| == |parts|
    ensures PhpBytes(Imploded(StoredParts(parts), Stored(glue))) == Join(parts, glue)
  {
    hide Stored, PhpBytes;
    if parts == [] {
      assert PhpBytes([]) == [] by { NoBytes(); }
    } else {
      ImplodedBytes(parts[1..], glue);
      BytesOfStored(parts[0]);
      BytesOfStored(glue);
      if |parts| > 1 {
        var rest := Imploded(StoredParts(parts[1..]), Stored(glue));
        BytesConcat(Stored(parts[0]) + Stored(glue), rest);
        BytesConcat(Stored(parts[0]), Stored(glue));
        assert StoredParts(parts)[1..] == StoredParts(parts[1..]);
      }
    }
  }

  lemma NoBytes()
    ensures PhpBytes([]) == []
  {
  }

  /** `implode($sep, explode($sep, $s, $limit))` is `$s` again for every limit that is not negative,
      once the join is brought to canonical form. */
  lemma ImplodeOfExplode(whole: seq<Byte>, sep: seq<Byte>, cap: nat)
    requires sep != [] && cap >= 1
    ensures Canonical(Imploded(StoredParts(Pieces(whole, sep, cap)), Stored(sep))) == Stored(whole)
  {
    hide Stored, PhpBytes, Canonical;
    var parts := Pieces(whole, sep, cap);
    ImplodedBytes(parts, sep);
    JoinOfPieces(whole, sep, cap);
    CanonicalIsStored(Imploded(StoredParts(parts), Stored(sep)));
  }
}
