/** The calls of `min` and `max` whose loops go generic, and those of `max` whose loops never do. */
module HandOvers {
  import opened Common
  import opened Compare
  import opened MinMax
  import opened Extremes

  // ---------- calls that leave the numbers ----------

  /** The plain fold over the arguments from `i` to `n`, begun with `best`. */
  function Onward(h: Host, args: seq<Value>, wantMax: bool, best: nat, i: nat, n: nat): (w: nat)
    requires best < i <= n <= |args|
    ensures w == best || i <= w < n
  {
    if n == i then best
    else
      var w := Onward(h, args, wantMax, best, i, n - 1);
      if Beats(h, args, wantMax, n - 1, w) then n - 1 else w
  }

  lemma {:induction false} WinnerOnward(h: Host, args: seq<Value>, wantMax: bool, i: nat, n: nat)
    requires 1 <= i <= n <= |args|
    ensures Onward(h, args, wantMax, Winner(h, args, wantMax, i), i, n) == Winner(h, args, wantMax, n)
  {
    hide PhpCompare;
    if i < n {
      WinnerOnward(h, args, wantMax, i, n - 1);
    }
  }

  lemma {:induction false} OnwardFromNext(h: Host, args: seq<Value>, wantMax: bool, best: nat, i: nat, n: nat)
    requires best < i < n <= |args|
    ensures Onward(h, args, wantMax, best, i, n) ==
            Onward(h, args, wantMax, if Beats(h, args, wantMax, i, best) then i else best, i + 1, n)
  {
    hide Beats;
    if i + 1 < n {
      OnwardFromNext(h, args, wantMax, best, i, n - 1);
    }
  }

  /** Once they are generic the loops are the fold, begun with what they held. */
  lemma {:induction false} GenericIsFold(h: Host, args: seq<Value>, wantMax: bool, s: State)
    requires s.mode == Generic && s.best < s.i <= |args|
    ensures Settles(h, args, wantMax, s) == Onward(h, args, wantMax, s.best, s.i, |args|)
    decreases |args| - s.i
  {
    hide PhpCompare;
    if s.i < |args| {
      OnwardFromNext(h, args, wantMax, s.best, s.i, |args|);
      GenericIsFold(h, args, wantMax, Step(h, args, wantMax, s));
    }
  }

  /** Argument `k` replaces the winner of both folds, begun with `v` and with `w`. */
  ghost predicate BeatsBoth(h: Host, args: seq<Value>, wantMax: bool, v: nat, w: nat, i: nat, k: nat) {
    && v < i <= k < |args| && w < i
    && Beats(h, args, wantMax, k, Onward(h, args, wantMax, v, i, k))
    && Beats(h, args, wantMax, k, Onward(h, args, wantMax, w, i, k))
  }

  /** Two folds end the same exactly when they began the same or some argument replaces both winners. */
  lemma {:induction false} FoldsMeet(h: Host, args: seq<Value>, wantMax: bool, v: nat, w: nat, i: nat, n: nat)
    requires v < i <= n <= |args| && w < i
    ensures Onward(h, args, wantMax, v, i, n) == Onward(h, args, wantMax, w, i, n) <==>
            v == w || exists k: nat :: k < n && BeatsBoth(h, args, wantMax, v, w, i, k)
  {
    hide Beats;
    if i < n {
      FoldsMeet(h, args, wantMax, v, w, i, n - 1);
      var a, b := Onward(h, args, wantMax, v, i, n - 1), Onward(h, args, wantMax, w, i, n - 1);
      if Beats(h, args, wantMax, n - 1, a) && Beats(h, args, wantMax, n - 1, b) {
        assert BeatsBoth(h, args, wantMax, v, w, i, n - 1);
      } else {
        assert !BeatsBoth(h, args, wantMax, v, w, i, n - 1);
      }
    }
  }

  /** The state in which the loops go generic, if they do. */
  function HandOver(h: Host, args: seq<Value>, wantMax: bool, s: State): (g: Option<State>)
    requires s.best < s.i <= |args|
    ensures g.Some? ==> g.value.mode == Generic && g.value.best < g.value.i <= |args| && s.i <= g.value.i
    decreases |args| - s.i, Rank(s.mode)
  {
    if s.mode == Generic then Some(s)
    else if s.i == |args| then None
    else HandOver(h, args, wantMax, Step(h, args, wantMax, s))
  }

  lemma {:induction false} HandOverSettles(h: Host, args: seq<Value>, wantMax: bool, s: State)
    requires s.best < s.i <= |args| && HandOver(h, args, wantMax, s).Some?
    ensures var g := HandOver(h, args, wantMax, s).value;
      Settles(h, args, wantMax, s) == Settles(h, args, wantMax, g)
    decreases |args| - s.i, Rank(s.mode)
  {
    hide PhpCompare;
    if s.mode != Generic {
      HandOverSettles(h, args, wantMax, Step(h, args, wantMax, s));
    }
  }

  /** A turn reads no argument past the one it is at. */
  lemma StepOnPrefix(h: Host, args: seq<Value>, wantMax: bool, s: State, n: nat)
    requires s.best < s.i < n <= |args|
    ensures Step(h, args[..n], wantMax, s) == Step(h, args, wantMax, s)
  {
    hide PhpCompare;
  }

  /** What the loops hold where they go generic is what they settle on for the arguments before. */
  lemma {:induction false} HeldAtHandOver(h: Host, args: seq<Value>, wantMax: bool, s: State)
    requires s.best < s.i <= |args| && HandOver(h, args, wantMax, s).Some?
    ensures var g := HandOver(h, args, wantMax, s).value;
      Settles(h, args[..g.i], wantMax, s) == g.best
    decreases |args| - s.i, Rank(s.mode)
  {
    hide PhpCompare;
    var g := HandOver(h, args, wantMax, s).value;
    if s.mode != Generic {
      var t := Step(h, args, wantMax, s);
      assert t.i == s.i ==> t.best == s.best;
      HeldAtHandOver(h, args, wantMax, t);
      if s.i < g.i {
        StepOnPrefix(h, args, wantMax, s, g.i);
      }
    }
  }

  lemma {:induction false} WinnerOnPrefix(h: Host, args: seq<Value>, wantMax: bool, n: nat, k: nat)
    requires 1 <= k <= n <= |args|
    ensures Winner(h, args[..n], wantMax, k) == Winner(h, args, wantMax, k)
  {
    hide PhpCompare;
    if k > 1 {
      WinnerOnPrefix(h, args, wantMax, n, k - 1);
    }
  }

  /**
    A call whose loops go generic, whatever its arguments: the loops pick the fold's argument exactly when they do
    for the arguments before that point, or some argument from there on beats what each of the two then holds.
  */
  lemma MixedCallMeetsFold(h: Host, args: seq<Value>, wantMax: bool)
    requires args != [] && HandOver(h, args, wantMax, Start(args[0])).Some?
    ensures var i := HandOver(h, args, wantMax, Start(args[0])).value.i;
      var v := Settles(h, args[..i], wantMax, Start(args[0]));
      var w := Winner(h, args[..i], wantMax, i);
      Settles(h, args, wantMax, Start(args[0])) == Winner(h, args, wantMax, |args|) <==>
      v == w || exists k: nat :: BeatsBoth(h, args, wantMax, v, w, i, k)
  {
    hide PhpCompare, Start, Step, Settles, Winner, HandOver, Onward, BeatsBoth;
    StartHolds(args);
    var s := Start(args[0]);
    var g := HandOver(h, args, wantMax, s).value;
    HandOverSettles(h, args, wantMax, s);
    HeldAtHandOver(h, args, wantMax, s);
    GenericIsFold(h, args, wantMax, g);
    WinnerOnward(h, args, wantMax, g.i, |args|);
    WinnerOnPrefix(h, args, wantMax, g.i, g.i);
    var w := Winner(h, args, wantMax, g.i);
    FoldsMeet(h, args, wantMax, g.best, w, g.i, |args|);
    assert forall k: nat :: BeatsBoth(h, args, wantMax, g.best, w, g.i, k) ==> k < |args| by {
      BeatsInside(h, args, wantMax, g.best, w, g.i);
    }
  }

  lemma BeatsInside(h: Host, args: seq<Value>, wantMax: bool, v: nat, w: nat, i: nat)
    ensures forall k: nat :: BeatsBoth(h, args, wantMax, v, w, i, k) ==> k < |args|
  {
  }

  lemma StartHolds(args: seq<Value>)
    requires args != []
    ensures Start(args[0]).best == 0 && Start(args[0]).i == 1
  {
  }

  // ---------- calls that stay with the numbers ----------

  /** The number of integers that the arguments begin with. */
  function LeadingInts(args: seq<Value>): (j: nat)
    ensures j <= |args| && (forall i :: 0 <= i < j ==> args[i].Int?) && (j < |args| ==> !args[j].Int?)
  {
    if args == [] || !args[0].Int? then 0 else 1 + LeadingInts(args[1..])
  }

  /** The arguments with the leading integers reduced to the one among them that wins. */
  function Reduced(h: Host, args: seq<Value>, wantMax: bool): (short: seq<Value>)
    requires args != []
    ensures short != []
  {
    var j := LeadingInts(args);
    if j == 0 then args else [args[Winner(h, args, wantMax, j)]] + args[j..]
  }

  /** `short` is `args` with the first `j` reduced to argument `w`, one of them. */
  predicate Reduces(args: seq<Value>, short: seq<Value>, j: nat, w: nat) {
    w < j <= |args| && short == [args[w]] + args[j..]
  }

  /** The argument that stands at `k` once the first `j` are reduced to argument `w`. */
  function Place(j: nat, w: nat, k: nat): int {
    if k == 0 then w else j + k - 1
  }

  lemma {:induction false} WinnerOfReduced(h: Host, args: seq<Value>, wantMax: bool, short: seq<Value>, j: nat, w: nat,
                                           n: nat)
    requires Reduces(args, short, j, w) && w == Winner(h, args, wantMax, j) && 1 <= n <= |short|
    ensures Winner(h, args, wantMax, j + n - 1) == Place(j, w, Winner(h, short, wantMax, n))
  {
    hide PhpCompare;
    if n > 1 {
      WinnerOfReduced(h, args, wantMax, short, j, w, n - 1);
      var best := Winner(h, short, wantMax, n - 1);
      assert short[n - 1] == args[j + n - 2] && short[best] == args[Place(j, w, best)];
    }
  }

  /** A turn on the reduced arguments is the turn on the arguments themselves. */
  lemma StepOfReduced(h: Host, args: seq<Value>, wantMax: bool, short: seq<Value>, j: nat, w: nat, s: State)
    requires Reduces(args, short, j, w) && s.best < s.i < |short|
    ensures var t := Step(h, short, wantMax, s);
      Step(h, args, wantMax, s.(best := Place(j, w, s.best), i := j + s.i - 1)) ==
      t.(best := Place(j, w, t.best), i := j + t.i - 1)
  {
    hide PhpCompare, LongFitsDouble, ToFloat, TakesFloat;
    assert short[s.i] == args[j + s.i - 1] && short[s.best] == args[Place(j, w, s.best)];
  }

  lemma {:induction false} SettlesOfReduced(h: Host, args: seq<Value>, wantMax: bool, short: seq<Value>, j: nat, w: nat,
                                            s: State)
    requires Reduces(args, short, j, w) && s.best < s.i <= |short|
    ensures Settles(h, args, wantMax, s.(best := Place(j, w, s.best), i := j + s.i - 1)) ==
            Place(j, w, Settles(h, short, wantMax, s))
    decreases |short| - s.i, Rank(s.mode)
  {
    hide PhpCompare, LongFitsDouble, ToFloat, TakesFloat;
    if s.i < |short| {
      StepOfReduced(h, args, wantMax, short, j, w, s);
      SettlesOfReduced(h, args, wantMax, short, j, w, Step(h, short, wantMax, s));
    }
  }

  /** What the loops hold after `j` leading integers: the fold's winner among them. */
  function AfterInts(h: Host, args: seq<Value>, wantMax: bool, j: nat): State
    requires 1 <= j <= LeadingInts(args)
  {
    var w := Winner(h, args, wantMax, j);
    State(Long, w, j, args[w].n, Finite(0.0))
  }

  lemma {:induction false} ReachesAfterInts(h: Host, args: seq<Value>, wantMax: bool, j: nat)
    requires 1 <= j <= LeadingInts(args)
    ensures var s := AfterInts(h, args, wantMax, j);
      && Settles(h, args, wantMax, Start(args[0])) == Settles(h, args, wantMax, s)
      && HandOver(h, args, wantMax, Start(args[0])) == HandOver(h, args, wantMax, s)
  {
    hide PhpCompare, LongFitsDouble;
    if j > 1 {
      ReachesAfterInts(h, args, wantMax, j - 1);
      IntsCompare(h, args[j - 1], args[Winner(h, args, wantMax, j - 1)]);
    }
  }

  /** Reducing the leading integers changes neither what the loops pick nor what the fold picks. */
  lemma ReducedPicksSame(h: Host, args: seq<Value>, wantMax: bool)
    requires args != []
    ensures var short := Reduced(h, args, wantMax);
      Settles(h, args, wantMax, Start(args[0])) == Winner(h, args, wantMax, |args|) <==>
      Settles(h, short, wantMax, Start(short[0])) == Winner(h, short, wantMax, |short|)
  {
    hide PhpCompare, Settles, Winner;
    var short, j := Reduced(h, args, wantMax), LeadingInts(args);
    if j > 0 {
      var w := Winner(h, args, wantMax, j);
      ReachesAfterInts(h, args, wantMax, j);
      SettlesOfReduced(h, args, wantMax, short, j, w, Start(short[0]));
      WinnerOfReduced(h, args, wantMax, short, j, w, |short|);
    }
  }

  lemma {:induction false} DoublesStay(h: Host, args: seq<Value>, wantMax: bool, s: State)
    requires s.mode == Double && s.best < s.i <= |args| && HandOver(h, args, wantMax, s).None?
    ensures forall k :: s.i <= k < |args| ==> IsExact(args[k])
    decreases |args| - s.i
  {
    hide PhpCompare, LongFitsDouble, ToFloat, TakesFloat;
    if s.i < |args| {
      DoublesStay(h, args, wantMax, Step(h, args, wantMax, s));
    }
  }

  /** Of a call that never goes generic all that is left are numbers that doubles hold, or one integer. */
  lemma ReducedIsExact(h: Host, args: seq<Value>, wantMax: bool)
    requires args != [] && HandOver(h, args, wantMax, Start(args[0])).None?
    ensures var short := Reduced(h, args, wantMax); AllExact(short) || (|short| == 1 && short[0].Int?)
  {
    hide PhpCompare, LongFitsDouble, ToFloat;
    var j := LeadingInts(args);
    if j == 0 {
      DoublesStay(h, args, wantMax, Start(args[0]));
    } else if j < |args| {
      var s := AfterInts(h, args, wantMax, j);
      ReachesAfterInts(h, args, wantMax, j);
      DoublesStay(h, args, wantMax, Step(h, args, wantMax, s));
    }
  }

  /** With the leading integers reduced to the greatest: no NaN is left, or the first argument is none and some
      argument after the last NaN is above every number before it. */
  ghost predicate NumbersMeet(h: Host, args: seq<Value>)
    requires args != []
  {
    var short := Reduced(h, args, true);
    |args| == 1 || NoNaN(short) || (!IsNaN(short[0]) && exists i: nat :: Overtakes(short, i))
  }

  /** A call of `max` whose loops never go generic: exactly then they pick the fold's argument. */
  lemma NumbersMeetFold(h: Host, args: seq<Value>)
    requires args != [] && HandOver(h, args, true, Start(args[0])).None?
    ensures Settles(h, args, true, Start(args[0])) == Winner(h, args, true, |args|) <==> NumbersMeet(h, args)
  {
    hide PhpCompare, AllExact, Overtakes, HandOver;
    var short := Reduced(h, args, true);
    ReducedPicksSame(h, args, true);
    ReducedIsExact(h, args, true);
    if |short| >= 2 {
      MaxMeetsFold(h, short);
    }
  }

  lemma {:induction false} NumbersUpToHandOver(h: Host, args: seq<Value>, wantMax: bool, s: State)
    requires s.best < s.i <= |args| && s.mode != Generic && HandOver(h, args, wantMax, s).Some?
    ensures HandOver(h, args[..HandOver(h, args, wantMax, s).value.i], wantMax, s).None?
    decreases |args| - s.i, Rank(s.mode)
  {
    hide PhpCompare, LongFitsDouble, ToFloat, TakesFloat;
    var g := HandOver(h, args, wantMax, s).value;
    var t := Step(h, args, wantMax, s);
    if t.mode != Generic {
      NumbersUpToHandOver(h, args, wantMax, t);
      if s.i < g.i {
        StepOnPrefix(h, args, wantMax, s, g.i);
      }
    }
  }

  /**
    Any call of `max`: its loops pick the argument that the plain fold picks exactly when they do on the numbers
    before the loops go generic, or some argument from there on beats what each of the two then holds.
  */
  lemma MaxCallMeetsFold(h: Host, args: seq<Value>)
    requires args != []
    ensures var g := HandOver(h, args, true, Start(args[0]));
      Settles(h, args, true, Start(args[0])) == Winner(h, args, true, |args|) <==>
      if g.None? then NumbersMeet(h, args)
      else
        var i := g.value.i;
        || NumbersMeet(h, args[..i])
        || exists k: nat :: BeatsBoth(h, args, true, g.value.best, Winner(h, args, true, i), i, k)
  {
    hide PhpCompare, NumbersMeet, BeatsBoth, Winner, Settles, Step;
    var s := Start(args[0]);
    var g := HandOver(h, args, true, s);
    if g.None? {
      NumbersMeetFold(h, args);
    } else {
      var i := g.value.i;
      MixedCallMeetsFold(h, args, true);
      HeldAtHandOver(h, args, true, s);
      WinnerOnPrefix(h, args, true, i, i);
      NumbersBefore(h, args, i);
    }
  }

  lemma NumbersBefore(h: Host, args: seq<Value>, i: nat)
    requires args != [] && HandOver(h, args, true, Start(args[0])).Some?
    requires i == HandOver(h, args, true, Start(args[0])).value.i
    ensures Settles(h, args[..i], true, Start(args[0])) == Winner(h, args[..i], true, i) <==> NumbersMeet(h, args[..i])
  {
    hide PhpCompare, Step;
    if i > 1 {
      NumbersUpToHandOver(h, args, true, Start(args[0]));
      NumbersMeetFold(h, args[..i]);
    }
  }
}
