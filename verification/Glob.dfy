/** The glob matcher of `src/intercepts.rs`: one backtrack point stands in for the whole search. */
module Glob {
  import opened Common

  const STAR: Byte := 42
  const QUERY: Byte := 63

  /** What a pattern means: `*` is any run and `?` any one byte. */
  ghost predicate Matches(p: seq<Byte>, t: seq<Byte>)
    decreases |p|
  {
    if p == [] then t == []
    else if p[0] == 0x2A then exists k :: 0 <= k <= |t| && Matches(p[1..], t[k..])
    else t != [] && (p[0] == 0x3F || p[0] == t[0]) && Matches(p[1..], t[1..])
  }

  predicate AllStars(p: seq<Byte>) {
    forall i :: 0 <= i < |p| ==> p[i] == STAR
  }

  /** The matcher's state: the pattern and text positions, the last star, and the text position that
      the star's run has reached. */
  datatype State = State(pi: nat, ti: nat, star: int, mark: nat)

  ghost predicate Valid(p: seq<Byte>, t: seq<Byte>, s: State) {
    -1 <= s.star < s.pi <= |p| && s.mark <= s.ti <= |t|
  }

  predicate Agrees(p: seq<Byte>, t: seq<Byte>, s: State)
    requires s.ti < |t|
  {
    s.pi < |p| && (p[s.pi] == QUERY || p[s.pi] == t[s.ti])
  }

  /** One turn of the loop; `None` when the matcher gives up. */
  function Next(p: seq<Byte>, t: seq<Byte>, s: State): Option<State>
    requires s.ti < |t|
  {
    if Agrees(p, t, s) then Some(s.(pi := s.pi + 1, ti := s.ti + 1))
    else if s.pi < |p| && p[s.pi] == STAR then Some(State(s.pi + 1, s.ti, s.pi, s.ti))
    else if s.star >= 0 then Some(State(s.star + 1, s.mark + 1, s.star, s.mark + 1))
    else None
  }

  /** The matcher's answer from a state on. */
  ghost predicate Run(p: seq<Byte>, t: seq<Byte>, s: State)
    requires Valid(p, t, s)
    decreases |p| - s.star, |t| - s.mark, |t| - s.ti
  {
    if s.ti < |t| then
      var next := Next(p, t, s);
      next.Some? && Run(p, t, next.value)
    else AllStars(p[s.pi..])
  }

  const START := State(0, 0, -1, 0)

  lemma RunStep(p: seq<Byte>, t: seq<Byte>, s: State)
    requires Valid(p, t, s)
    ensures s.ti < |t| ==> (Run(p, t, s) <==> Next(p, t, s).Some? && Run(p, t, Next(p, t, s).value))
    ensures s.ti == |t| ==> (Run(p, t, s) <==> AllStars(p[s.pi..]))
  {
  }

  method GlobMatch(p: seq<Byte>, t: seq<Byte>) returns (r: bool)
    ensures r == Run(p, t, START)
    ensures r ==> Matches(p, t)
    ensures 0x2A !in t ==> r == Matches(p, t)
  {
    hide Matches, Run;
    RunIsSound(p, t, START);
    if STAR !in t {
      RunIsComplete(p, t, START);
    }
    var pi, ti := 0, 0;
    var star, mark := -1, 0;
    while ti < |t|
      invariant Valid(p, t, State(pi, ti, star, mark))
      invariant Run(p, t, START) == Run(p, t, State(pi, ti, star, mark))
      decreases |p| - star, |t| - mark, |t| - ti
    {
      RunStep(p, t, State(pi, ti, star, mark));
      if pi < |p| && (p[pi] == QUERY || p[pi] == t[ti]) {
        pi, ti := pi + 1, ti + 1;
      } else if pi < |p| && p[pi] == STAR {
        star := pi;
        mark := ti;
        pi := pi + 1;
      } else if star != -1 {
        pi := star + 1;
        mark := mark + 1;
        ti := mark;
      } else {
        return false;
      }
    }
    RunStep(p, t, State(pi, ti, star, mark));
    ghost var tail := p[pi..];
    ghost var from := pi;
    while pi < |p| && p[pi] == STAR
      invariant from <= pi <= |p|
      invariant forall i :: from <= i < pi ==> p[i] == STAR
    {
      pi := pi + 1;
    }
    if pi < |p| {
      assert tail[pi - from] == p[pi];
    }
    return pi == |p|;
  }

  // ---------- soundness, on every text ----------

  /** What a state still allows: a match from here, or from a longer run of the last star. */
  ghost predicate Promises(p: seq<Byte>, t: seq<Byte>, s: State)
    requires Valid(p, t, s)
  {
    Matches(p[s.pi..], t[s.ti..]) ||
    (s.star >= 0 && exists k :: s.mark < k <= |t| && Matches(p[s.star + 1..], t[k..]))
  }

  lemma StarSkips(p: seq<Byte>, t: seq<Byte>, k: nat)
    requires p != [] && p[0] == STAR && k <= |t| && Matches(p[1..], t[k..])
    ensures Matches(p, t)
  {
  }

  lemma AgreementKeepsMatch(p: seq<Byte>, t: seq<Byte>, s: State)
    requires Valid(p, t, s) && s.ti < |t| && Agrees(p, t, s)
    ensures Matches(p[s.pi + 1..], t[s.ti + 1..]) ==> Matches(p[s.pi..], t[s.ti..])
  {
    var here, rest := p[s.pi..], t[s.ti..];
    assert here[1..] == p[s.pi + 1..] && rest[1..] == t[s.ti + 1..];
    if Matches(here[1..], rest[1..]) && here[0] == STAR {
      StarSkips(here, rest, 1);
    }
  }

  lemma StarTakesRun(p: seq<Byte>, t: seq<Byte>, s: State, k: nat)
    requires Valid(p, t, s) && s.ti <= k <= |t| && s.pi < |p| && p[s.pi] == STAR
    ensures Matches(p[s.pi + 1..], t[k..]) ==> Matches(p[s.pi..], t[s.ti..])
  {
    var here, rest := p[s.pi..], t[s.ti..];
    assert here[1..] == p[s.pi + 1..] && rest[k - s.ti..] == t[k..];
    if Matches(here[1..], t[k..]) {
      StarSkips(here, rest, k - s.ti);
    }
  }

  lemma NextKeepsPromise(p: seq<Byte>, t: seq<Byte>, s: State)
    requires Valid(p, t, s) && s.ti < |t| && Next(p, t, s).Some?
    requires Promises(p, t, Next(p, t, s).value)
    ensures Promises(p, t, s)
  {
    hide Matches;
    if Agrees(p, t, s) {
      AgreementKeepsMatch(p, t, s);
    } else if s.pi < |p| && p[s.pi] == STAR {
      StarTakesRun(p, t, s, s.ti);
      if !Matches(p[s.pi + 1..], t[s.ti..]) {
        var k :| s.ti < k <= |t| && Matches(p[s.pi + 1..], t[k..]);
        StarTakesRun(p, t, s, k);
      }
    }
  }

  lemma {:induction false} StarsMatchNothing(p: seq<Byte>)
    ensures AllStars(p) <==> Matches(p, [])
  {
    if p != [] {
      StarsMatchNothing(p[1..]);
      var none: seq<Byte> := [];
      assert none[0..] == none;
      if p[0] == STAR && Matches(p[1..], none) {
        StarSkips(p, none, 0);
      }
      assert AllStars(p) <==> p[0] == STAR && AllStars(p[1..]) by {
        if AllStars(p[1..]) && p[0] == STAR {
          assert forall i :: 1 <= i < |p| ==> p[i] == p[1..][i - 1];
        }
      }
    }
  }

  /** What the matcher accepts, the pattern means. */
  lemma {:induction false} RunIsSound(p: seq<Byte>, t: seq<Byte>, s: State)
    requires Valid(p, t, s)
    ensures Run(p, t, s) ==> Promises(p, t, s)
    ensures s == START && Run(p, t, s) ==> Matches(p, t)
    decreases |p| - s.star, |t| - s.mark, |t| - s.ti
  {
    if Run(p, t, s) {
      if s.ti < |t| {
        RunIsSound(p, t, Next(p, t, s).value);
        NextKeepsPromise(p, t, s);
      } else {
        assert t[s.ti..] == [];
        StarsMatchNothing(p[s.pi..]);
      }
    }
    assert p[0..] == p && t[0..] == t;
  }

  // ---------- completeness, on texts without a star ----------

  /** The pattern between the last star and the current position holds no star, and is as long as the
      text it was matched to. */
  ghost predicate Aligned(p: seq<Byte>, t: seq<Byte>, s: State)
    requires Valid(p, t, s)
  {
    s.star >= 0 ==> s.pi - s.star - 1 == s.ti - s.mark && STAR !in p[s.star + 1..s.pi]
  }

  lemma LiteralTakes(p: seq<Byte>, t: seq<Byte>)
    requires p != [] && p[0] != STAR && Matches(p, t)
    ensures t != [] && Matches(p[1..], t[1..])
  {
  }

  lemma {:induction false} LiteralsConsume(q: seq<Byte>, r: seq<Byte>, t: seq<Byte>)
    requires STAR !in q && Matches(q + r, t)
    ensures |q| <= |t| && Matches(r, t[|q|..])
  {
    hide Matches;
    if q == [] {
      assert q + r == r && t[0..] == t;
    } else {
      assert (q + r)[1..] == q[1..] + r;
      LiteralTakes(q + r, t);
      LiteralsConsume(q[1..], r, t[1..]);
      assert t[1..][|q| - 1..] == t[|q|..];
    }
  }

  /** The last star dominates the earlier ones: a longer run of an earlier star is one of its own. */
  lemma LastStarDominates(p: seq<Byte>, t: seq<Byte>, s: State, k: nat)
    requires Valid(p, t, s) && Aligned(p, t, s) && s.star >= 0
    requires s.pi < |p| && p[s.pi] == STAR
    requires s.mark < k <= |t| && Matches(p[s.star + 1..], t[k..])
    ensures Matches(p[s.pi..], t[s.ti..])
  {
    hide Matches;
    var q, r := p[s.star + 1..s.pi], p[s.pi..];
    assert p[s.star + 1..] == q + r;
    LiteralsConsume(q, r, t[k..]);
    var at := k + |q|;
    assert t[k..][|q|..] == t[at..];
    var j := StarMatches(r, t[at..]);
    assert t[at..][j..] == t[s.ti..][at - s.ti + j..];
    StarSkips(r, t[s.ti..], at - s.ti + j);
  }

  lemma NextLosesNothing(p: seq<Byte>, t: seq<Byte>, s: State)
    requires STAR !in t && Valid(p, t, s) && Aligned(p, t, s) && s.ti < |t|
    requires Promises(p, t, s)
    ensures Next(p, t, s).Some? && Promises(p, t, Next(p, t, s).value)
  {
    hide Matches;
    NoStarAt(t, s.ti);
    if s.pi < |p| && p[s.pi] == STAR {
      StarLosesNothing(p, t, s);
    } else if Agrees(p, t, s) {
      AgreementLosesNothing(p, t, s);
    } else {
      DisagreementMatchesNothing(p, t, s);
    }
  }

  lemma NoStarAt(t: seq<Byte>, i: nat)
    requires STAR !in t && i < |t|
    ensures t[i] != STAR
  {
  }

  /** At a star, what an earlier star would match the new one does. */
  lemma StarLosesNothing(p: seq<Byte>, t: seq<Byte>, s: State)
    requires Valid(p, t, s) && Aligned(p, t, s) && s.ti < |t| && Promises(p, t, s)
    requires s.pi < |p| && p[s.pi] == STAR
    ensures Promises(p, t, State(s.pi + 1, s.ti, s.pi, s.ti))
  {
    hide Matches;
    if !Matches(p[s.pi..], t[s.ti..]) {
      var k: nat :| s.mark < k <= |t| && Matches(p[s.star + 1..], t[k..]);
      LastStarDominates(p, t, s, k);
    }
    var k := StarMatches(p[s.pi..], t[s.ti..]);
    assert p[s.pi..][1..] == p[s.pi + 1..] && t[s.ti..][k..] == t[s.ti + k..];
    assert k == 0 || Matches(p[s.pi + 1..], t[s.ti + k..]);
  }

  lemma StarMatches(p: seq<Byte>, t: seq<Byte>) returns (k: nat)
    requires p != [] && p[0] == STAR && Matches(p, t)
    ensures k <= |t| && Matches(p[1..], t[k..])
  {
    k :| k <= |t| && Matches(p[1..], t[k..]);
  }

  lemma AgreementLosesNothing(p: seq<Byte>, t: seq<Byte>, s: State)
    requires Valid(p, t, s) && s.ti < |t| && Promises(p, t, s) && Agrees(p, t, s) && p[s.pi] != STAR
    ensures Promises(p, t, s.(pi := s.pi + 1, ti := s.ti + 1))
  {
    hide Matches;
    var here, rest := p[s.pi..], t[s.ti..];
    assert here[1..] == p[s.pi + 1..] && rest[1..] == t[s.ti + 1..];
    if Matches(here, rest) {
      LiteralTakes(here, rest);
    }
  }

  lemma MatchesNothing(p: seq<Byte>, t: seq<Byte>)
    requires t != [] && (p == [] || p[0] !in {STAR, QUERY, t[0]})
    ensures !Matches(p, t)
  {
  }

  lemma DisagreementMatchesNothing(p: seq<Byte>, t: seq<Byte>, s: State)
    requires Valid(p, t, s) && s.ti < |t| && Promises(p, t, s) && !Agrees(p, t, s)
    requires s.pi == |p| || p[s.pi] != STAR
    ensures s.star >= 0 && Promises(p, t, State(s.star + 1, s.mark + 1, s.star, s.mark + 1))
  {
    hide Matches;
    MatchesNothing(p[s.pi..], t[s.ti..]);
    var k: nat :| s.mark < k <= |t| && Matches(p[s.star + 1..], t[k..]);
  }

  lemma NextAligned(p: seq<Byte>, t: seq<Byte>, s: State)
    requires STAR !in t && Valid(p, t, s) && Aligned(p, t, s) && s.ti < |t| && Next(p, t, s).Some?
    ensures Aligned(p, t, Next(p, t, s).value)
  {
    var next := Next(p, t, s).value;
    if Agrees(p, t, s) {
      assert t[s.ti] != STAR;
      if s.star >= 0 {
        NoStarSnoc(p, s.star + 1, s.pi);
      }
    } else {
      assert p[next.star + 1..next.pi] == [];
    }
  }

  lemma NoStarSnoc(p: seq<Byte>, lo: nat, hi: nat)
    requires lo <= hi < |p| && STAR !in p[lo..hi] && p[hi] != STAR
    ensures STAR !in p[lo..hi + 1]
  {
    assert p[lo..hi + 1] == p[lo..hi] + [p[hi]];
  }

  /** On a text without a star the matcher accepts whatever the pattern means. */
  lemma {:induction false} RunIsComplete(p: seq<Byte>, t: seq<Byte>, s: State)
    requires STAR !in t && Valid(p, t, s) && Aligned(p, t, s)
    ensures Promises(p, t, s) ==> Run(p, t, s)
    ensures s == START && Matches(p, t) ==> Run(p, t, s)
    decreases |p| - s.star, |t| - s.mark, |t| - s.ti
  {
    assert p[0..] == p && t[0..] == t;
    if Promises(p, t, s) {
      if s.ti < |t| {
        NextLosesNothing(p, t, s);
        NextAligned(p, t, s);
        RunIsComplete(p, t, Next(p, t, s).value);
      } else {
        assert t[s.ti..] == [];
        if !Matches(p[s.pi..], []) {
          // a longer run of the last star leaves too little text for what follows it
          var k: nat :| s.mark < k <= |t| && Matches(p[s.star + 1..], t[k..]);
          assert p[s.star + 1..] == p[s.star + 1..s.pi] + p[s.pi..];
          LiteralsConsume(p[s.star + 1..s.pi], p[s.pi..], t[k..]);
        }
        StarsMatchNothing(p[s.pi..]);
      }
    }
  }

  // ---------- texts with a star ----------

  lemma {:induction false} RunLiterally(p: seq<Byte>, t: seq<Byte>, s: State)
    requires Valid(p, t, s) && s.pi - s.ti + |t| <= |p|
    requires forall i :: s.ti <= i < |t| ==> p[s.pi - s.ti + i] == QUERY || p[s.pi - s.ti + i] == t[i]
    ensures Run(p, t, s) == AllStars(p[s.pi - s.ti + |t|..])
    decreases |t| - s.ti
  {
    if s.ti < |t| {
      RunLiterally(p, t, s.(pi := s.pi + 1, ti := s.ti + 1));
    }
  }

  lemma {:induction false} LiteralPrefixMatches(u: seq<Byte>, p: seq<Byte>, t: seq<Byte>)
    requires STAR !in u && Matches(p, t)
    ensures Matches(u + p, u + t)
  {
    if u == [] {
      assert u + p == p && u + t == t;
    } else {
      assert (u + p)[1..] == u[1..] + p && (u + t)[1..] == u[1..] + t;
      LiteralPrefixMatches(u[1..], p, t);
    }
  }

  function Queries(n: nat): seq<Byte> {
    seq(n, _ => QUERY)
  }

  lemma {:induction false} QueriesMatch(t: seq<Byte>)
    ensures Matches(Queries(|t|), t)
  {
    if t != [] {
      assert Queries(|t|)[1..] == Queries(|t| - 1);
      QueriesMatch(t[1..]);
    }
  }

  lemma StarQueriesMatch(t: seq<Byte>)
    ensures Matches([STAR] + Queries(|t|), t)
  {
    var p := [STAR] + Queries(|t|);
    QueriesMatch(t);
    assert t[0..] == t && p[1..] == Queries(|t|);
    StarSkips(p, t, 0);
  }

  lemma LiteralStarRun(u: seq<Byte>, v: seq<Byte>)
    ensures !Run(u + ([STAR] + Queries(|v| + 1)), u + ([STAR] + v), START)
  {
    hide Matches, Run, Next;
    var p, t := u + ([STAR] + Queries(|v| + 1)), u + ([STAR] + v);
    RunLiterally(p, t, START);
    assert p[|t|..][0] == QUERY;
  }

  /** A text with a star defeats the matcher: the first star of the text is taken literally, by a star
      of the pattern that should have matched nothing. */
  lemma StarInTextDefeats(t: seq<Byte>) returns (p: seq<Byte>)
    requires STAR in t
    ensures Matches(p, t) && !Run(p, t, START)
  {
    hide Matches, Run, Next, Queries;
    var u, v := FirstStar(t);
    p := u + ([STAR] + Queries(|v| + 1));
    StarQueriesMatch([STAR] + v);
    LiteralPrefixMatches(u, [STAR] + Queries(|v| + 1), [STAR] + v);
    LiteralStarRun(u, v);
  }

  lemma {:induction false} FirstStar(t: seq<Byte>) returns (u: seq<Byte>, v: seq<Byte>)
    requires STAR in t
    ensures t == u + ([STAR] + v) && STAR !in u
  {
    if t[0] == STAR {
      u, v := [], t[1..];
    } else {
      u, v := FirstStar(t[1..]);
      u := [t[0]] + u;
    }
  }

  /** The matcher decides the language of every pattern on exactly the texts that hold no star. */
  lemma GlobMatchIsExact(t: seq<Byte>)
    ensures (forall p :: Run(p, t, START) <==> Matches(p, t)) <==> 0x2A !in t
  {
    if STAR in t {
      var p := StarInTextDefeats(t);
    } else {
      forall p ensures Run(p, t, START) <==> Matches(p, t) {
        RunIsSound(p, t, START);
        RunIsComplete(p, t, START);
      }
    }
  }
}
