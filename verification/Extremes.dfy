/** What `min` and `max` pick: the first greatest (or least) argument where the arguments are ordered, and where
    `max` meets a NaN, exactly the calls on which its loops still pick what the plain fold picks. */
module Extremes {
  import opened Compare
  import opened MinMax

  // ---------- ordered arguments ----------

  /** Whether argument `i` would replace argument `j` as the winner. */
  predicate Beats(h: Host, args: seq<Value>, wantMax: bool, i: int, j: int)
    requires 0 <= i < |args| && 0 <= j < |args|
  {
    Takes(wantMax, PhpCompare(h, args[i], args[j]))
  }

  /** `<=>` orders the arguments, ties allowed, and says the same of a pair from either side. */
  ghost predicate Ordered(h: Host, args: seq<Value>, wantMax: bool) {
    && (forall i, j :: 0 <= i < |args| && 0 <= j < |args| ==>
          !(Beats(h, args, wantMax, i, j) && Beats(h, args, wantMax, j, i)))
    && (forall i, j, k :: 0 <= i < |args| && 0 <= j < |args| && 0 <= k < |args| ==>
          (!Beats(h, args, wantMax, i, j) && !Beats(h, args, wantMax, j, k) ==> !Beats(h, args, wantMax, i, k)))
    && (forall i, j :: 0 <= i < |args| && 0 <= j < |args| ==>
          (Beats(h, args, wantMax, i, j) <==> Beats(h, args, !wantMax, j, i)))
  }

  /** `w` is the first of the best among the first `n`. */
  ghost predicate FirstBest(h: Host, args: seq<Value>, wantMax: bool, n: nat, w: nat) {
    && w < n <= |args|
    && (forall j :: 0 <= j < n ==> !Beats(h, args, wantMax, j, w))
    && (forall j :: 0 <= j < w ==> Beats(h, args, wantMax, w, j))
  }

  /** The fold picks the first of the best. */
  lemma {:induction false} WinnerIsFirstBest(h: Host, args: seq<Value>, wantMax: bool, n: nat)
    requires Ordered(h, args, wantMax) && 1 <= n <= |args|
    ensures FirstBest(h, args, wantMax, n, Winner(h, args, wantMax, n))
  {
    hide PhpCompare;
    if n > 1 {
      WinnerIsFirstBest(h, args, wantMax, n - 1);
      var best, w := Winner(h, args, wantMax, n - 1), n - 1;
      if Beats(h, args, wantMax, w, best) {
        forall j | 0 <= j < w ensures Beats(h, args, wantMax, w, j) && !Beats(h, args, wantMax, j, w) {
          assert !Beats(h, args, wantMax, j, best);
        }
      }
    }
  }

  function Values(items: seq<Pair>): (args: seq<Value>)
    ensures |args| == |items|
  {
    seq(|items|, i requires 0 <= i < |items| => items[i].value)
  }

  /** Over a lone array, with the winner on the left instead, the same element is picked. */
  lemma {:induction false} ArrayWinnerAgrees(h: Host, items: seq<Pair>, wantMax: bool, n: nat)
    requires Ordered(h, Values(items), wantMax) && 1 <= n <= |items|
    ensures ArrayWinner(h, items, wantMax, n) == items[Winner(h, Values(items), wantMax, n)].value
  {
    hide PhpCompare;
    if n > 1 {
      ArrayWinnerAgrees(h, items, wantMax, n - 1);
      var args := Values(items);
      var best := Winner(h, args, wantMax, n - 1);
      assert Beats(h, args, wantMax, n - 1, best) <==> Beats(h, args, !wantMax, best, n - 1);
    }
  }

  lemma IntsAreOrdered(h: Host, args: seq<Value>, wantMax: bool)
    requires forall i :: 0 <= i < |args| ==> args[i].Int?
    ensures Ordered(h, args, wantMax)
  {
    hide PhpCompare;
    forall i, j | 0 <= i < |args| && 0 <= j < |args|
      ensures Beats(h, args, wantMax, i, j) <==> if wantMax then args[j].n < args[i].n else args[i].n < args[j].n
      ensures Beats(h, args, !wantMax, i, j) <==> if wantMax then args[i].n < args[j].n else args[j].n < args[i].n
    {
      IntsCompare(h, args[i], args[j]);
    }
  }

  // ---------- numbers that are doubles ----------

  /** A double, or an integer that is exact as one. */
  predicate IsExact(v: Value) {
    v.Float? || (v.Int? && LongFitsDouble(v.n))
  }

  predicate AllExact(args: seq<Value>) {
    forall i :: 0 <= i < |args| ==> IsExact(args[i])
  }

  function Point(v: Value): Compare.Float
    requires IsExact(v)
  {
    if v.Float? then v.f else ToFloat(v.n)
  }

  lemma ExactCompare(h: Host, v: Value, w: Value)
    requires IsExact(v) && IsExact(w)
    ensures PhpCompare(h, v, w) == CompareFloats(Point(v), Point(w))
  {
  }

  /** Whether the number of argument `i` is below that of argument `j`. */
  predicate Below(args: seq<Value>, i: int, j: int)
    requires AllExact(args) && 0 <= i < |args| && 0 <= j < |args|
  {
    FloatLess(Point(args[i]), Point(args[j]))
  }

  lemma NaNPoint(v: Value)
    requires IsExact(v)
    ensures IsNaN(v) <==> Point(v).NaN?
  {
  }

  lemma ExactBeats(h: Host, args: seq<Value>, i: int, j: int)
    requires AllExact(args) && 0 <= i < |args| && 0 <= j < |args|
    ensures IsNaN(args[i]) || IsNaN(args[j]) ==> Beats(h, args, true, i, j) && !Beats(h, args, false, i, j)
    ensures !IsNaN(args[i]) && !IsNaN(args[j]) ==>
              (Beats(h, args, true, i, j) <==> Below(args, j, i)) &&
              (Beats(h, args, false, i, j) <==> Below(args, i, j))
  {
    hide PhpCompare, IsExact;
    assert IsExact(args[i]) && IsExact(args[j]);
    ExactCompare(h, args[i], args[j]);
    NaNPoint(args[i]);
    NaNPoint(args[j]);
  }

  lemma FloatOrder(x: Compare.Float, y: Compare.Float, z: Compare.Float)
    ensures FloatLess(x, y) ==> !FloatLess(y, x) && !x.NaN? && !y.NaN?
    ensures !FloatLess(x, x)
    ensures !y.NaN? && FloatLess(x, z) ==> FloatLess(x, y) || FloatLess(y, z)
    ensures !x.NaN? && !y.NaN? ==> FloatLess(x, y) || FloatLess(y, x) || x == y
  {
  }

  /** Numbers are totally ordered, and a NaN is below and above nothing. */
  lemma BelowIsOrder(args: seq<Value>, i: int, j: int, k: int)
    requires AllExact(args) && 0 <= i < |args| && 0 <= j < |args| && 0 <= k < |args|
    ensures Below(args, i, j) ==> !Below(args, j, i) && !IsNaN(args[i]) && !IsNaN(args[j])
    ensures !Below(args, i, i)
    ensures !IsNaN(args[j]) && Below(args, i, k) ==> Below(args, i, j) || Below(args, j, k)
    ensures !IsNaN(args[i]) && !IsNaN(args[j]) ==>
              Below(args, i, j) || Below(args, j, i) || Point(args[i]) == Point(args[j])
  {
    hide IsExact, FloatLess, Point;
    assert IsExact(args[i]) && IsExact(args[j]) && IsExact(args[k]);
    FloatOrder(Point(args[i]), Point(args[j]), Point(args[k]));
    NaNPoint(args[i]);
    NaNPoint(args[j]);
  }

  lemma ExactNumbersAreOrdered(h: Host, args: seq<Value>, wantMax: bool)
    requires AllExact(args) && NoNaN(args)
    ensures Ordered(h, args, wantMax)
  {
    hide PhpCompare, Beats, Below, AllExact;
    forall i, j | 0 <= i < |args| && 0 <= j < |args|
      ensures Beats(h, args, true, i, j) <==> Below(args, j, i)
      ensures Beats(h, args, false, i, j) <==> Below(args, i, j)
      ensures Below(args, i, j) ==> !Below(args, j, i)
    {
      ExactBeats(h, args, i, j);
      BelowIsOrder(args, i, j, j);
    }
    forall i, j, k | 0 <= i < |args| && 0 <= j < |args| && 0 <= k < |args|
      ensures !Below(args, i, j) && !Below(args, j, k) ==> !Below(args, i, k)
    {
      BelowIsOrder(args, i, j, k);
    }
  }

  // ---------- the first greatest number ----------

  /** `w` is the first greatest of the numbers from `lo` to `n`. */
  ghost predicate FirstGreatest(args: seq<Value>, lo: int, n: int, w: int) {
    && AllExact(args) && 0 <= lo <= w < n <= |args| && !IsNaN(args[w])
    && (forall j :: lo <= j < n ==> !Below(args, w, j))
    && (forall j :: lo <= j < w ==> IsNaN(args[j]) || Below(args, j, w))
  }

  lemma FirstGreatestStart(args: seq<Value>, lo: nat)
    requires AllExact(args) && lo < |args| && !IsNaN(args[lo])
    ensures FirstGreatest(args, lo, lo + 1, lo)
  {
    hide Below;
    BelowIsOrder(args, lo, lo, lo);
  }

  lemma FirstGreatestStep(args: seq<Value>, lo: nat, n: nat, w: nat)
    requires FirstGreatest(args, lo, n, w) && n < |args|
    ensures FirstGreatest(args, lo, n + 1, if Below(args, w, n) then n else w)
  {
    hide Below, AllExact;
    BelowIsOrder(args, w, n, n);
    BelowIsOrder(args, n, n, n);
    if Below(args, w, n) {
      forall j | lo <= j < n
        ensures !Below(args, n, j) && (IsNaN(args[j]) || Below(args, j, n))
      {
        assert !Below(args, w, j);
        BelowIsOrder(args, w, j, n);
        BelowIsOrder(args, j, n, n);
        BelowIsOrder(args, n, j, j);
      }
    }
  }

  lemma FirstGreatestIsUnique(args: seq<Value>, lo: nat, n: nat, v: nat, w: nat)
    requires FirstGreatest(args, lo, n, v) && FirstGreatest(args, lo, n, w)
    ensures v == w
  {
    hide Below, AllExact;
    BelowIsOrder(args, v, w, w);
  }

  // ---------- what the loops of `max` hold ----------

  /** The argument that `max`'s comparison by `<` leads with, among the first `n`. */
  function Leader(args: seq<Value>, n: nat): (best: nat)
    requires AllExact(args) && 1 <= n <= |args|
    ensures best < n
  {
    if n == 1 then 0
    else
      var best := Leader(args, n - 1);
      if Below(args, best, n - 1) then n - 1 else best
  }

  /** The state of the loops while every argument is a number that a double holds. */
  ghost predicate Leading(args: seq<Value>, s: State) {
    && AllExact(args) && s.best < s.i <= |args| && s.best == Leader(args, s.i)
    && match s.mode
       case Long => args[s.best] == Int(s.lval)
       case Double => s.dval == Point(args[s.best])
       case Generic => false
  }

  lemma StepKeepsLeader(h: Host, args: seq<Value>, s: State)
    requires Leading(args, s) && s.i < |args|
    ensures var t := Step(h, args, true, s);
      Leading(args, t) && (t.i > s.i || (t.i == s.i && Rank(t.mode) < Rank(s.mode)))
  {
    hide PhpCompare;
    assert IsExact(args[s.i]) && IsExact(args[s.best]);
  }

  lemma {:induction false} LoopsSettleOnLeader(h: Host, args: seq<Value>, s: State)
    requires Leading(args, s)
    ensures Settles(h, args, true, s) == Leader(args, |args|)
    decreases |args| - s.i, Rank(s.mode)
  {
    hide Leader, Step, AllExact;
    if s.i < |args| {
      StepKeepsLeader(h, args, s);
      LoopsSettleOnLeader(h, args, Step(h, args, true, s));
    }
  }

  /** The loops hold the first greatest number, or a NaN that came first. */
  lemma {:induction false} LeaderIsFirstGreatest(args: seq<Value>, n: nat)
    requires AllExact(args) && 1 <= n <= |args|
    ensures var s := Leader(args, n); if IsNaN(args[0]) then s == 0 else FirstGreatest(args, 0, n, s)
  {
    hide Below, AllExact, FirstGreatest;
    if n > 1 {
      LeaderIsFirstGreatest(args, n - 1);
      if IsNaN(args[0]) {
        BelowIsOrder(args, 0, n - 1, 0);
      } else {
        FirstGreatestStep(args, 0, n - 1, Leader(args, n - 1));
      }
    } else if !IsNaN(args[0]) {
      FirstGreatestStart(args, 0);
    }
  }

  // ---------- what the fold holds ----------

  /** The fold takes every NaN and then whatever comes next: it holds the first greatest since the last NaN. */
  lemma {:induction false} WinnerAfterNaN(h: Host, args: seq<Value>, m: nat, n: nat)
    requires AllExact(args) && m < n <= |args| && IsNaN(args[m]) && forall j :: m < j < n ==> !IsNaN(args[j])
    ensures var w := Winner(h, args, true, n); if m == n - 1 then w == m else FirstGreatest(args, m + 1, n, w)
  {
    hide Below, AllExact, PhpCompare, FirstGreatest;
    if n > 1 {
      var best := Winner(h, args, true, n - 1);
      ExactBeats(h, args, n - 1, best);
      if m < n - 2 {
        WinnerAfterNaN(h, args, m, n - 1);
        GreatestIsNumber(args, m + 1, n - 1, best);
        FirstGreatestStep(args, m + 1, n - 1, best);
      } else if m == n - 2 {
        WinnerAfterNaN(h, args, m, n - 1);
        FirstGreatestStart(args, n - 1);
      }
    }
  }

  lemma GreatestIsNumber(args: seq<Value>, lo: nat, n: nat, w: nat)
    requires FirstGreatest(args, lo, n, w)
    ensures w < |args| && !IsNaN(args[w])
  {
  }

  // ---------- when the two are the same ----------

  /** No NaN stands at argument `i` or after it, and it is above every number before. */
  ghost predicate Overtakes(args: seq<Value>, i: nat) {
    && AllExact(args) && i < |args|
    && (forall j :: i <= j < |args| ==> !IsNaN(args[j]))
    && (forall j :: 0 <= j < i ==> IsNaN(args[j]) || Below(args, j, i))
  }

  /** No NaN stands at argument `i` or after it, and no number before it is above it. */
  ghost predicate Reaches(args: seq<Value>, i: nat) {
    && AllExact(args) && i < |args|
    && (forall j :: i <= j < |args| ==> !IsNaN(args[j]))
    && (forall j :: 0 <= j < i ==> !Below(args, i, j))
  }

  lemma {:induction false} LastNaN(args: seq<Value>) returns (m: nat)
    requires !NoNaN(args)
    ensures m < |args| && IsNaN(args[m]) && forall j :: m < j < |args| ==> !IsNaN(args[j])
  {
    m := |args| - 1;
    if !IsNaN(args[m]) {
      m := LastNaN(args[..m]);
    }
  }

  /** Beyond the last NaN at `m`: when what the loops hold is what the fold holds. */
  lemma SameAfterNaN(args: seq<Value>, m: nat, s: nat, w: nat)
    requires AllExact(args) && m + 1 < |args| && IsNaN(args[m]) && (forall j :: m < j < |args| ==> !IsNaN(args[j]))
    requires FirstGreatest(args, 0, |args|, s) && FirstGreatest(args, m + 1, |args|, w)
    ensures s == w <==> exists i: nat :: Overtakes(args, i)
    ensures Point(args[s]) == Point(args[w]) <==> exists i: nat :: Reaches(args, i)
  {
    hide Below, IsExact, Point, Reaches;
    assert IsExact(args[s]) && IsExact(args[w]);
    if s == w {
      assert Overtakes(args, s);
    }
    if i: nat :| Overtakes(args, i) {
      assert i > m;
      BelowIsOrder(args, s, i, i);
      assert s >= i;
      FirstGreatestIsUnique(args, m + 1, |args|, s, w);
    }
    if Point(args[s]) == Point(args[w]) {
      SamePointReaches(args, s, w);
    }
    if i: nat :| Reaches(args, i) {
      ReachesSamePoint(args, m, s, w, i);
    }
  }

  lemma SamePointReaches(args: seq<Value>, s: nat, w: nat)
    requires AllExact(args) && FirstGreatest(args, 0, |args|, s) && w < |args|
    requires Point(args[s]) == Point(args[w]) && forall j :: w <= j < |args| ==> !IsNaN(args[j])
    ensures Reaches(args, w)
  {
    hide AllExact;
    forall j | 0 <= j < w ensures !Below(args, w, j) {
      assert !Below(args, s, j);
    }
  }

  lemma ReachesSamePoint(args: seq<Value>, m: nat, s: nat, w: nat, i: nat)
    requires AllExact(args) && m < |args| && IsNaN(args[m]) && Reaches(args, i)
    requires FirstGreatest(args, 0, |args|, s) && FirstGreatest(args, m + 1, |args|, w)
    ensures Point(args[s]) == Point(args[w])
  {
    hide Below, AllExact, Point;
    assert i > m;
    if Below(args, w, s) {
      assert s < i && !Below(args, i, s) && !Below(args, w, i);
      BelowIsOrder(args, w, i, s);
    }
    BelowIsOrder(args, s, w, w);
  }

  /**
    `max` over numbers that doubles hold. Its loops pick the argument that the plain fold picks exactly when there
    is no NaN, or the first argument is none and some argument after the last NaN is above every number before it.
    The two are the same number, maybe of different arguments, exactly when there is no NaN, or one stands at both
    ends, or some argument after the last NaN is below no number before it.
  */
  lemma MaxMeetsFold(h: Host, args: seq<Value>)
    requires |args| >= 2 && AllExact(args)
    ensures var s, w := Settles(h, args, true, Start(args[0])), Winner(h, args, true, |args|);
      && (s == w <==> NoNaN(args) || (!IsNaN(args[0]) && exists i: nat :: Overtakes(args, i)))
      && (Point(args[s]) == Point(args[w]) <==>
            NoNaN(args) || (IsNaN(args[0]) && IsNaN(args[|args| - 1])) ||
            (!IsNaN(args[0]) && exists i: nat :: Reaches(args, i)))
  {
    hide Below, AllExact, PhpCompare, FirstGreatest, Overtakes, Reaches, Point;
    var n := |args|;
    var s, w := Settles(h, args, true, Start(args[0])), Winner(h, args, true, n);
    if NoNaN(args) {
      FirstWins(h, args, true);
      StartIsTied(args);
      LoopsSettleOnWinner(h, args, true, Start(args[0]));
    } else {
      StartLeads(args);
      LoopsSettleOnLeader(h, args, Start(args[0]));
      LeaderIsFirstGreatest(args, n);
      var m := LastNaN(args);
      WinnerAfterNaN(h, args, m, n);
      EndsApart(args, s, w);
      if m < n - 1 {
        GreatestIsNumber(args, m + 1, n, w);
        if !IsNaN(args[0]) {
          SameAfterNaN(args, m, s, w);
        }
      } else {
        NoneAfterNaN(args);
        if !IsNaN(args[0]) {
          GreatestIsNumber(args, 0, n, s);
        }
      }
    }
  }

  lemma StartIsTied(args: seq<Value>)
    requires args != []
    ensures Start(args[0]).best == 0 && Start(args[0]).i == 1 && Tied(args, Start(args[0]))
  {
  }

  lemma StartLeads(args: seq<Value>)
    requires args != [] && AllExact(args)
    ensures Leading(args, Start(args[0]))
  {
    assert IsExact(args[0]);
  }

  lemma EndsApart(args: seq<Value>, s: nat, w: nat)
    requires AllExact(args) && s < |args| && w < |args|
    ensures IsNaN(args[s]) && IsNaN(args[w]) ==> Point(args[s]) == Point(args[w])
    ensures IsNaN(args[s]) != IsNaN(args[w]) ==> Point(args[s]) != Point(args[w])
  {
    assert IsExact(args[s]) && IsExact(args[w]);
  }

  lemma NoneAfterNaN(args: seq<Value>)
    requires args != [] && IsNaN(args[|args| - 1])
    ensures !exists i: nat :: Overtakes(args, i)
    ensures !exists i: nat :: Reaches(args, i)
  {
  }

  /** The smallest call on which they part: the loops keep 1.0, and the fold takes the NaN. */
  lemma MaxPartsAtNaN(h: Host)
    ensures var args := [Compare.Value.Float(Finite(1.0)), Compare.Value.Float(NaN)];
      Settles(h, args, true, Start(args[0])) == 0 && Winner(h, args, true, 2) == 1
  {
  }
}
