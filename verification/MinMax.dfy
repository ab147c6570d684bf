/** `min` and `max`: `fold_cmp` of `src/builtins.rs`, three loops that hand over to one another. */
module MinMax {
  import opened Common
  import opened Compare

  /** `long_fits_double`: the range test comes first because a cast back saturates. */
  predicate LongFitsDouble(n: int) {
    var d := NearestDouble(n);
    -TWO_63 <= d < TWO_63 && d == n
  }

  /** An integer fits exactly when it is a multiple of the distance between doubles around it. */
  lemma LongFitsDoubleMeaning(n: int)
    requires IsI64(n)
    ensures var m := if n < 0 then -n else n; LongFitsDouble(n) <==> m % Ulp(m) == 0
  {
    hide Ulp;
    var m := if n < 0 then -n else n;
    Between(m, Ulp(m));
  }

  lemma Between(m: nat, u: nat)
    requires u >= 1
    ensures m / u * u <= m < (m / u + 1) * u && (m / u * u == m <==> m % u == 0)
  {
    assert m == m / u * u + m % u;
    assert (m / u + 1) * u == m / u * u + u;
  }

  datatype Mode = Long | Double | Generic

  /** The running winner `best` and how the loop reads it: as `lval`, as `dval`, or as the argument. */
  datatype State = State(mode: Mode, best: nat, i: nat, lval: int, dval: Compare.Float)

  function Start(first: Value): State {
    match first
    case Int(n) => State(Long, 0, 1, n, Finite(0.0))
    case Float(d) => State(Double, 0, 1, 0, d)
    case _ => State(Generic, 0, 1, 0, Finite(0.0))
  }

  /** Whether a candidate replaces the winner, given `candidate <=> winner`. */
  predicate Takes(wantMax: bool, order: int) {
    (wantMax && order > 0) || (!wantMax && order < 0)
  }

  predicate TakesFloat(wantMax: bool, dval: Compare.Float, r: Compare.Float) {
    if wantMax then FloatLess(dval, r) else FloatLess(r, dval)
  }

  /** One turn of the loop. A change of mode does not advance the argument index. */
  function Step(h: Host, args: seq<Value>, wantMax: bool, s: State): State
    requires s.i < |args| && s.best < |args|
  {
    var v := args[s.i];
    match s.mode
    case Long =>
      if v.Int? then
        if (if wantMax then s.lval < v.n else s.lval > v.n) then s.(lval := v.n, best := s.i, i := s.i + 1)
        else s.(i := s.i + 1)
      else if v.Float? && LongFitsDouble(s.lval) then s.(mode := Double, dval := ToFloat(s.lval))
      else s.(mode := Generic)
    case Double =>
      if v.Float? || (v.Int? && LongFitsDouble(v.n)) then
        var r := if v.Float? then v.f else ToFloat(v.n);
        if TakesFloat(wantMax, s.dval, r) then s.(dval := r, best := s.i, i := s.i + 1)
        else s.(i := s.i + 1)
      else s.(mode := Generic)
    case Generic =>
      if Takes(wantMax, PhpCompare(h, v, args[s.best])) then s.(best := s.i, i := s.i + 1)
      else s.(i := s.i + 1)
  }

  function Rank(mode: Mode): nat {
    match mode
    case Long => 2
    case Double => 1
    case Generic => 0
  }

  /** The index of the argument that the loops settle on. */
  function Settles(h: Host, args: seq<Value>, wantMax: bool, s: State): (best: nat)
    requires s.best < s.i <= |args|
    ensures best < |args|
    decreases |args| - s.i, Rank(s.mode)
  {
    if s.i == |args| then s.best else Settles(h, args, wantMax, Step(h, args, wantMax, s))
  }

  /** The plain fold: each argument in turn, compared with the winner so far. */
  function Winner(h: Host, args: seq<Value>, wantMax: bool, k: nat): (best: nat)
    requires 1 <= k <= |args|
    ensures best < k
  {
    if k == 1 then 0
    else
      var best := Winner(h, args, wantMax, k - 1);
      if Takes(wantMax, PhpCompare(h, args[k - 1], args[best])) then k - 1 else best
  }

  datatype Outcome = Chosen(v: Value) | ArgumentCountError | TypeError | ValueError

  /** `zend_hash_minmax` over a lone array: the winner is the left operand. */
  function ArrayWinner(h: Host, items: seq<Pair>, wantMax: bool, k: nat): (best: Value)
    requires 1 <= k <= |items|
  {
    if k == 1 then items[0].value
    else
      var best, v := ArrayWinner(h, items, wantMax, k - 1), items[k - 1].value;
      var order := PhpCompare(h, best, v);
      if (wantMax && order < 0) || (!wantMax && order > 0) then v else best
  }

  predicate NoNaN(args: seq<Value>) {
    forall i :: 0 <= i < |args| ==> !IsNaN(args[i])
  }

  method FoldCmp(h: Host, args: seq<Value>, wantMax: bool) returns (r: Outcome)
    ensures args == [] ==> r == ArgumentCountError
    ensures |args| == 1 && !args[0].Arr? ==> r == TypeError
    ensures |args| == 1 && args[0].Arr? ==>
      var items := args[0].pairs;
      r == if items == [] then ValueError else Chosen(ArrayWinner(h, items, wantMax, |items|))
    ensures |args| >= 2 ==> r == Chosen(args[Settles(h, args, wantMax, Start(args[0]))])
    ensures |args| >= 2 && (wantMax ==> NoNaN(args)) ==> r == Chosen(args[Winner(h, args, wantMax, |args|)])
  {
    hide PhpCompare, Winner, LongFitsDouble, ToFloat, NoNaN;
    if args == [] {
      return ArgumentCountError;
    }
    if |args| == 1 {
      if !args[0].Arr? {
        return TypeError;
      }
      var items := args[0].pairs;
      if items == [] {
        return ValueError;
      }
      var best := items[0].value;
      for i := 1 to |items|
        invariant best == ArrayWinner(h, items, wantMax, i)
      {
        var order := PhpCompare(h, best, items[i].value);
        if (wantMax && order < 0) || (!wantMax && order > 0) {
          best := items[i].value;
        }
      }
      return Chosen(best);
    }
    if wantMax ==> NoNaN(args) {
      FirstWins(h, args, wantMax);
      LoopsSettleOnWinner(h, args, wantMax, Start(args[0]));
    }
    var best, i := 0, 1;
    var lval, dval := 0, Finite(0.0);
    var mode := Generic;
    match args[0] {
      case Int(n) => lval, mode := n, Long;
      case Float(d) => dval, mode := d, Double;
      case _ =>
    }
    while true
      invariant best < i <= |args|
      invariant mode == Long ==> args[best] == Int(lval)
      invariant Settles(h, args, wantMax, Start(args[0])) == Settles(h, args, wantMax, State(mode, best, i, lval, dval))
      decreases |args| - i, Rank(mode)
    {
      match mode {
        case Long =>
          if i == |args| {
            return Chosen(Int(lval));
          }
          var v := args[i];
          if v.Int? {
            if if wantMax then lval < v.n else lval > v.n {
              lval := v.n;
              best := i;
            }
            i := i + 1;
          } else if v.Float? && LongFitsDouble(lval) {
            dval := ToFloat(lval);
            mode := Double;
          } else {
            mode := Generic;
          }
        case Double =>
          if i == |args| {
            break;
          }
          var v := args[i];
          if v.Float? || (v.Int? && LongFitsDouble(v.n)) {
            var r := if v.Float? then v.f else ToFloat(v.n);
            if TakesFloat(wantMax, dval, r) {
              dval := r;
              best := i;
            }
            i := i + 1;
          } else {
            mode := Generic;
          }
        case Generic =>
          if i == |args| {
            break;
          }
          if Takes(wantMax, PhpCompare(h, args[i], args[best])) {
            best := i;
          }
          i := i + 1;
      }
    }
    return Chosen(args[best]);
  }

  // ---------- the loops compute the fold ----------

  /** The running value stands for the winning argument exactly. */
  ghost predicate Tied(args: seq<Value>, s: State)
    requires s.best < |args|
  {
    var w := args[s.best];
    match s.mode
    case Long => w == Int(s.lval)
    case Double => w == Compare.Value.Float(s.dval) || (w.Int? && LongFitsDouble(w.n) && s.dval == ToFloat(w.n))
    case Generic => true
  }

  /** Comparing two doubles by `<` or by `<=>` comes to the same for `min`; for `max` it does exactly
      when neither is a NaN. */
  lemma FloatStepAgrees(v: Compare.Float, w: Compare.Float)
    ensures TakesFloat(false, w, v) <==> Takes(false, CompareFloats(v, w))
    ensures (TakesFloat(true, w, v) <==> Takes(true, CompareFloats(v, w))) <==> !v.NaN? && !w.NaN?
  {
  }

  lemma DoubleStepAgrees(h: Host, args: seq<Value>, wantMax: bool, s: State)
    requires s.mode == Double && s.best < s.i < |args| && Tied(args, s)
    requires wantMax ==> !IsNaN(args[s.i]) && !IsNaN(args[s.best])
    requires args[s.i].Float? || (args[s.i].Int? && LongFitsDouble(args[s.i].n))
    ensures var v := args[s.i];
      TakesFloat(wantMax, s.dval, if v.Float? then v.f else ToFloat(v.n)) <==>
      Takes(wantMax, PhpCompare(h, v, args[s.best]))
  {
    var v, w := args[s.i], args[s.best];
    FloatStepAgrees(if v.Float? then v.f else ToFloat(v.n), s.dval);
  }

  /** One turn of the loop keeps the winner, and the running value stands for it. */
  lemma StepTracksWinner(h: Host, args: seq<Value>, wantMax: bool, s: State)
    requires s.best < s.i < |args| && Tied(args, s) && s.best == Winner(h, args, wantMax, s.i)
    requires wantMax ==> NoNaN(args)
    ensures var t := Step(h, args, wantMax, s);
      && t.best < t.i <= |args| && Tied(args, t) && t.best == Winner(h, args, wantMax, t.i)
  {
    hide PhpCompare, Winner, LongFitsDouble, ToFloat, TakesFloat, NoNaN;
    WinnerStep(h, args, wantMax, s.i);
    NoNaNAt(args, wantMax, s.i, s.best);
    var v, w := args[s.i], args[s.best];
    if s.mode == Long && v.Int? {
      IntsCompare(h, v, w);
    } else if s.mode == Double && (v.Float? || (v.Int? && LongFitsDouble(v.n))) {
      DoubleStepAgrees(h, args, wantMax, s);
    }
  }

  lemma WinnerStep(h: Host, args: seq<Value>, wantMax: bool, k: nat)
    requires 1 <= k < |args|
    ensures var best := Winner(h, args, wantMax, k);
      Winner(h, args, wantMax, k + 1) == if Takes(wantMax, PhpCompare(h, args[k], args[best])) then k else best
  {
  }

  lemma NoNaNAt(args: seq<Value>, wantMax: bool, i: nat, j: nat)
    requires (wantMax ==> NoNaN(args)) && i < |args| && j < |args|
    ensures wantMax ==> !IsNaN(args[i]) && !IsNaN(args[j])
  {
  }

  lemma IntsCompare(h: Host, v: Value, w: Value)
    requires v.Int? && w.Int?
    ensures PhpCompare(h, v, w) == if v.n < w.n then -1 else if v.n == w.n then 0 else 1
  {
  }

  lemma FirstWins(h: Host, args: seq<Value>, wantMax: bool)
    requires args != []
    ensures Winner(h, args, wantMax, 1) == 0
  {
  }

  lemma {:induction false} LoopsSettleOnWinner(h: Host, args: seq<Value>, wantMax: bool, s: State)
    requires s.best < s.i <= |args| && Tied(args, s) && s.best == Winner(h, args, wantMax, s.i)
    requires wantMax ==> NoNaN(args)
    ensures Settles(h, args, wantMax, s) == Winner(h, args, wantMax, |args|)
    decreases |args| - s.i, Rank(s.mode)
  {
    hide Tied, Winner, PhpCompare, LongFitsDouble, ToFloat, TakesFloat;
    if s.i < |args| {
      StepTracksWinner(h, args, wantMax, s);
      LoopsSettleOnWinner(h, args, wantMax, Step(h, args, wantMax, s));
    }
  }
}
