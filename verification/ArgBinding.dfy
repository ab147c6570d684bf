/** PHP 8 named arguments: `bind_named` of `src/argsig.rs`. */
module ArgBinding {
  import opened Common

  /** The default of a parameter, as reflection publishes it; `Known` holds the value it stands for. */
  datatype Def<V> = Required | Unknown | Known(value: V)

  datatype Param<V> = Param(name: string, ty: string, def: Def<V>)

  /** A function's declared shape. `pairOnly` marks `rand` and `mt_rand`, which take no argument or two. */
  datatype Sig<V> = Sig(req: nat, params: seq<Param<V>>, variadic: bool, pairOnly: bool)

  datatype Named<V> = Named(name: string, value: V)

  datatype Bound = Exactly | AtLeast | AtMost

  /** A refusal raised inside the callee. */
  datatype Refusal =
    | NotPassed(index: nat)
    | MustBePassed(index: nat)
    | WrongCount(bound: Bound, expected: nat, argc: nat)

  datatype Binding<V(0)> =
    | Overwrites(name: string)
    | UnknownName(name: string)
    | Refused(refusal: Refusal)
    | Call(args: seq<V>, unplacedName: bool)

  // ---------- the checks ----------

  /** `check_argc_of`. */
  function CheckArgc<V>(sig: Sig<V>, argc: nat): Option<Refusal> {
    var max := |sig.params|;
    if sig.pairOnly && argc != 0 && argc != 2 then Some(WrongCount(Exactly, 2, argc))
    else if argc < sig.req then
      Some(WrongCount(if !sig.variadic && max == sig.req then Exactly else AtLeast, sig.req, argc))
    else if !sig.variadic && argc > max then
      Some(WrongCount(if sig.req == max then Exactly else AtMost, max, argc))
    else None
  }

  predicate Meets(argc: nat, bound: Bound, expected: nat) {
    match bound
    case Exactly => argc == expected
    case AtLeast => argc >= expected
    case AtMost => argc <= expected
  }

  /**
    A count refusal says a bound that the call breaks and that every accepted count meets; only `rand` and
    `mt_rand`, which say that they take exactly two, accept no argument as well.
  */
  lemma CountRefusalIsTrue<V>(sig: Sig<V>, argc: nat)
    requires sig.req <= |sig.params| && CheckArgc(sig, argc).Some?
    ensures var r := CheckArgc(sig, argc).value;
      && r.WrongCount? && r.argc == argc && !Meets(argc, r.bound, r.expected)
      && forall n: nat :: CheckArgc(sig, n).None? ==> Meets(n, r.bound, r.expected) || (sig.pairOnly && n == 0)
  {
  }

  /** The counts that a signature declares. */
  predicate Declares<V>(sig: Sig<V>, n: nat) {
    && sig.req <= n
    && (!sig.variadic ==> n <= |sig.params|)
    && (sig.pairOnly ==> n == 0 || n == 2)
  }

  /** Exactly the declared counts are accepted. */
  lemma CountAccepted<V>(sig: Sig<V>, argc: nat)
    ensures CheckArgc(sig, argc).None? <==> Declares(sig, argc)
  {
  }

  /** `rand` and `mt_rand` aside, a refusal says `exactly` where one count alone is declared, and otherwise the least
      one to a call with fewer and the greatest one to a call with more. */
  lemma CountRefusalIsTight<V>(sig: Sig<V>, argc: nat)
    requires sig.req <= |sig.params| && !sig.pairOnly && CheckArgc(sig, argc).Some?
    ensures var r := CheckArgc(sig, argc).value;
      && Declares(sig, r.expected)
      && (r.bound == Exactly <==> forall n: nat :: Declares(sig, n) ==> n == r.expected)
      && (r.bound == AtLeast ==> argc < r.expected && forall n: nat :: Declares(sig, n) ==> r.expected <= n)
      && (r.bound == AtMost ==> r.expected < argc && forall n: nat :: Declares(sig, n) ==> n <= r.expected)
  {
    assert Declares(sig, sig.req) && Declares(sig, |sig.params|);
    assert sig.variadic ==> Declares(sig, |sig.params| + 1);
  }

  function HoleRefusal<V>(sig: Sig<V>, i: nat): Option<Refusal>
    requires i < |sig.params|
  {
    match sig.params[i].def
    case Required => Some(NotPassed(i))
    case Unknown => Some(MustBePassed(i))
    case Known(_) => None
  }

  /** The value put in a slot that was jumped over; `null` stands in where none is published. */
  function HoleDefault<V>(sig: Sig<V>, nil: V, i: nat): V
    requires i < |sig.params|
  {
    match sig.params[i].def
    case Known(value) => value
    case _ => nil
  }

  // ---------- what a call binds ----------

  /** The position of the parameter called `name`. */
  function Position<V>(params: seq<Param<V>>, name: string): (at: Option<nat>)
    ensures at.Some? ==> at.value < |params| && params[at.value].name == name
    ensures at.None? ==> forall i :: 0 <= i < |params| ==> params[i].name != name
  {
    PositionFrom(params, name, 0)
  }

  function PositionFrom<V>(params: seq<Param<V>>, name: string, from: nat): (at: Option<nat>)
    requires from <= |params| && forall i :: 0 <= i < from ==> params[i].name != name
    ensures at.Some? ==> at.value < |params| && params[at.value].name == name
    ensures at.None? ==> forall i :: 0 <= i < |params| ==> params[i].name != name
    decreases |params| - from
  {
    if from == |params| then None
    else if params[from].name == name then Some(from)
    else PositionFrom(params, name, from + 1)
  }

  ghost predicate DistinctParams<V>(params: seq<Param<V>>) {
    forall i, j :: 0 <= i < j < |params| ==> params[i].name != params[j].name
  }

  ghost predicate DistinctNames<V>(named: seq<Named<V>>) {
    forall i, j :: 0 <= i < j < |named| ==> named[i].name != named[j].name
  }

  /** The refusal raised at send time for the first named argument that meets one. */
  function SendError<V(0)>(sig: Sig<V>, argc: nat, named: seq<Named<V>>): (e: Option<Binding<V>>)
    ensures e.None? <==>
            forall k :: 0 <= k < |named| ==>
              match Position(sig.params, named[k].name) case Some(i) => i >= argc case None => sig.variadic
    ensures e.Some? ==> e.value.Overwrites? || e.value.UnknownName?
  {
    if named == [] then None
    else
      var k := |named| - 1;
      var e := SendError(sig, argc, named[..k]);
      if e.Some? then e
      else match Position(sig.params, named[k].name)
        case Some(i) => if i < argc then Some(Overwrites(named[k].name)) else None
        case None => if sig.variadic then None else Some(UnknownName(named[k].name))
  }

  /** The value that the last of the named arguments called `name` passes. */
  function Lookup<V>(named: seq<Named<V>>, name: string): (v: Option<V>)
    ensures v.Some? ==> Named(name, v.value) in named
    ensures v.None? ==> forall k :: 0 <= k < |named| ==> named[k].name != name
  {
    if named == [] then None
    else
      var k := |named| - 1;
      if named[k].name == name then Some(named[k].value) else Lookup(named[..k], name)
  }

  /** The declared slots: positionals first, then names. */
  function Slots<V>(sig: Sig<V>, args: seq<V>, named: seq<Named<V>>): seq<Option<V>> {
    seq(|sig.params|, i requires 0 <= i < |sig.params| =>
      if i < |args| then Some(args[i]) else Lookup(named, sig.params[i].name))
  }

  function Tail<V>(sig: Sig<V>, args: seq<V>): seq<V> {
    if |args| <= |sig.params| then [] else args[|sig.params|..]
  }

  /** One past the last filled slot. */
  function Last<V>(slots: seq<Option<V>>): (n: nat)
    ensures n <= |slots| && (n > 0 ==> slots[n - 1].Some?)
    ensures forall i :: n <= i < |slots| ==> slots[i].None?
  {
    if slots == [] then 0
    else if slots[|slots| - 1].Some? then |slots|
    else Last(slots[..|slots| - 1])
  }

  /** The first hole among the first `n` slots. */
  function FirstHole<V>(slots: seq<Option<V>>, n: nat): (at: Option<nat>)
    requires n <= |slots|
    ensures at.Some? ==> at.value < n && slots[at.value].None? && forall i :: 0 <= i < at.value ==> slots[i].Some?
    ensures at.None? ==> forall i :: 0 <= i < n ==> slots[i].Some?
  {
    if n == 0 then None
    else
      var at := FirstHole(slots, n - 1);
      if at.Some? then at else if slots[n - 1].None? then Some(n - 1) else None
  }

  /** Only the first hole is asked for its refusal; then the count is. */
  function CallRefusal<V>(sig: Sig<V>, slots: seq<Option<V>>, argc: nat): Option<Refusal>
    requires |slots| == |sig.params|
  {
    var hole := FirstHole(slots, Last(slots));
    if hole.Some? && HoleRefusal(sig, hole.value).Some? then HoleRefusal(sig, hole.value)
    else CheckArgc(sig, argc)
  }

  function Fill<V>(sig: Sig<V>, nil: V, slots: seq<Option<V>>, n: nat): (args: seq<V>)
    requires n <= |slots| == |sig.params|
    ensures |args| == n
    ensures forall i :: 0 <= i < n ==> args[i] == if slots[i].Some? then slots[i].value else HoleDefault(sig, nil, i)
  {
    if n == 0 then []
    else
      Fill(sig, nil, slots, n - 1) +
      [if slots[n - 1].Some? then slots[n - 1].value else HoleDefault(sig, nil, n - 1)]
  }

  predicate HasUnplaced<V>(sig: Sig<V>, named: seq<Named<V>>) {
    exists k :: 0 <= k < |named| && Position(sig.params, named[k].name).None?
  }

  /** What a call comes to. */
  function Bind<V(0)>(sig: Sig<V>, nil: V, args: seq<V>, named: seq<Named<V>>): Binding<V> {
    var e := SendError(sig, |args|, named);
    if e.Some? then e.value
    else
      var slots, tail := Slots(sig, args, named), Tail(sig, args);
      var refusal := CallRefusal(sig, slots, Last(slots) + |tail|);
      if refusal.Some? then Refused(refusal.value)
      else Call(Fill(sig, nil, slots, Last(slots)) + tail, HasUnplaced(sig, named))
  }

  lemma SameName<V>(params: seq<Param<V>>, i: nat, j: nat)
    requires DistinctParams(params) && i < |params| && j < |params| && params[i].name == params[j].name
    ensures i == j
  {
  }

  /** Positions are unambiguous when the parameters have distinct names. */
  lemma PositionIs<V>(params: seq<Param<V>>, i: nat)
    requires DistinctParams(params) && i < |params|
    ensures Position(params, params[i].name) == Some(i)
  {
    hide DistinctParams;
    SameName(params, i, Position(params, params[i].name).value);
  }

  /** `bind_named`. */
  method BindNamed<V(0)>(sig: Sig<V>, nil: V, args: seq<V>, named: seq<Named<V>>) returns (r: Binding<V>)
    requires DistinctParams(sig.params)
    ensures r == Bind(sig, nil, args, named)
  {
    hide Position, Lookup, SendError, Last, FirstHole, Fill, DistinctParams, HasUnplaced, CallRefusal, Slots, Tail;
    var n := |sig.params|;
    var slots := new Option<V>[n](_ => None);
    var tail: seq<V> := [];
    for i := 0 to |args|
      invariant forall j :: 0 <= j < n ==> slots[j] == if j < i then Some(args[j]) else None
      invariant tail == if i <= n then [] else args[n..i]
    {
      if i < n {
        slots[i] := Some(args[i]);
      } else {
        tail := tail + [args[i]];
        SliceSnoc(args, n, i);
      }
    }

    assert |args| > n ==> args[n..|args|] == args[n..];
    var unplaced := false;
    StartNamed(sig, args, named, slots[..], tail);
    for k := 0 to |named|
      invariant SendError(sig, |args|, named[..k]).None?
      invariant slots[..] == Slots(sig, args, named[..k])
      invariant unplaced == HasUnplaced(sig, named[..k])
    {
      ghost var before := slots[..];
      var at := Position(sig.params, named[k].name);
      SendErrorStep(sig, |args|, named, k);
      if at.Some? && at.value < |args| {
        return Overwrites(named[k].name);
      } else if at.Some? {
        SlotsStep(sig, args, named, k);
        slots[at.value] := Some(named[k].value);
        assert slots[..] == before[at.value := Some(named[k].value)];
      } else if sig.variadic {
        SlotsStep(sig, args, named, k);
        unplaced := true;
      } else {
        return UnknownName(named[k].name);
      }
      UnplacedStep(sig, named, k);
    }
    assert named[..|named|] == named;

    var all := slots[..];
    assert all == Slots(sig, args, named);
    var last := Last(all);
    var refusal := CallRefusal(sig, all, last + |tail|);
    if refusal.Some? {
      return Refused(refusal.value);
    }
    var out: seq<V> := [];
    for i := 0 to last
      invariant out == Fill(sig, nil, all, i)
    {
      FillStep(sig, nil, all, i);
      out := out + [if all[i].Some? then all[i].value else HoleDefault(sig, nil, i)];
    }
    return Call(out + tail, unplaced);
  }

  lemma SliceSnoc<T>(s: seq<T>, lo: nat, i: nat)
    requires lo <= i < |s|
    ensures s[lo..i + 1] == s[lo..i] + [s[i]]
  {
  }

  lemma StartNamed<V(0)>(sig: Sig<V>, args: seq<V>, named: seq<Named<V>>, slots: seq<Option<V>>, tail: seq<V>)
    requires |slots| == |sig.params| && tail == if |args| <= |slots| then [] else args[|slots|..]
    requires forall j :: 0 <= j < |slots| ==> slots[j] == if j < |args| then Some(args[j]) else None
    ensures SendError(sig, |args|, named[..0]).None? && !HasUnplaced(sig, named[..0])
    ensures slots == Slots(sig, args, named[..0]) && tail == Tail(sig, args)
  {
  }

  lemma FillStep<V>(sig: Sig<V>, nil: V, slots: seq<Option<V>>, n: nat)
    requires n < |slots| == |sig.params|
    ensures Fill(sig, nil, slots, n + 1) ==
            Fill(sig, nil, slots, n) + [if slots[n].Some? then slots[n].value else HoleDefault(sig, nil, n)]
    ensures Fill(sig, nil, slots, 0) == []
  {
  }

  lemma {:induction false} SendErrorStep<V(0)>(sig: Sig<V>, argc: nat, named: seq<Named<V>>, k: nat)
    requires k < |named| && SendError(sig, argc, named[..k]).None?
    ensures var at := Position(sig.params, named[k].name);
      var e := if at.Some? && at.value < argc then Some(Overwrites(named[k].name))
               else if at.None? && !sig.variadic then Some(UnknownName(named[k].name)) else None;
      SendError(sig, argc, named[..k + 1]) == e && (e.Some? ==> SendError(sig, argc, named) == e)
  {
    hide Position;
    assert named[..k + 1][..k] == named[..k];
    SendErrorStays(sig, argc, named, k + 1);
  }

  lemma {:induction false} SendErrorStays<V(0)>(sig: Sig<V>, argc: nat, named: seq<Named<V>>, k: nat)
    requires k <= |named|
    ensures SendError(sig, argc, named[..k]).Some? ==> SendError(sig, argc, named) == SendError(sig, argc, named[..k])
    decreases |named| - k
  {
    hide Position;
    if k < |named| {
      assert named[..k + 1][..k] == named[..k];
      SendErrorStays(sig, argc, named, k + 1);
    } else {
      assert named[..k] == named;
    }
  }

  lemma SlotsStep<V>(sig: Sig<V>, args: seq<V>, named: seq<Named<V>>, k: nat)
    requires DistinctParams(sig.params) && k < |named|
    ensures var at := Position(sig.params, named[k].name);
      var before, after := Slots(sig, args, named[..k]), Slots(sig, args, named[..k + 1]);
      && (at.None? ==> after == before)
      && (at.Some? && at.value >= |args| ==> after == before[at.value := Some(named[k].value)])
  {
    assert named[..k + 1][..k] == named[..k];
    forall i | 0 <= i < |sig.params|
      ensures Lookup(named[..k + 1], sig.params[i].name) ==
              if sig.params[i].name == named[k].name then Some(named[k].value)
              else Lookup(named[..k], sig.params[i].name)
    {
    }
    var at := Position(sig.params, named[k].name);
    if at.Some? {
      forall i | 0 <= i < |sig.params| ensures sig.params[i].name == named[k].name <==> i == at.value {
        PositionIs(sig.params, i);
      }
    }
  }

  lemma UnplacedStep<V>(sig: Sig<V>, named: seq<Named<V>>, k: nat)
    requires k < |named|
    ensures HasUnplaced(sig, named[..k + 1]) <==>
            HasUnplaced(sig, named[..k]) || Position(sig.params, named[k].name).None?
  {
    hide Position;
    assert forall j :: 0 <= j < k ==> named[..k + 1][j] == named[..k][j];
    if HasUnplaced(sig, named[..k]) {
      var j :| 0 <= j < k && Position(sig.params, named[..k][j].name).None?;
      assert Position(sig.params, named[..k + 1][j].name).None?;
    }
    assert named[..k + 1][k] == named[k];
  }

  // ---------- no argument is lost, moved or made up ----------

  /** What a name passes, with distinct names, does not depend on where it stands in the call. */
  lemma {:induction false} LookupFinds<V>(named: seq<Named<V>>, x: Named<V>)
    requires DistinctNames(named)
    ensures Lookup(named, x.name) == Some(x.value) <==> x in named
  {
    if named != [] {
      var k := |named| - 1;
      LookupFinds(named[..k], x);
      assert named == named[..k] + [named[k]];
    }
  }

  /** Whether a name reaches slot `i`. */
  ghost predicate Reaches<V>(sig: Sig<V>, named: seq<Named<V>>, i: nat) {
    i < |sig.params| && exists k :: 0 <= k < |named| && named[k].name == sig.params[i].name
  }

  lemma SlotFilled<V>(sig: Sig<V>, args: seq<V>, named: seq<Named<V>>, i: nat)
    requires i < |sig.params|
    ensures Slots(sig, args, named)[i].Some? <==> i < |args| || Reaches(sig, named, i)
    ensures i < |args| ==> Slots(sig, args, named)[i] == Some(args[i])
  {
    var v := Lookup(named, sig.params[i].name);
    if v.Some? {
      var k :| 0 <= k < |named| && named[k] == Named(sig.params[i].name, v.value);
      assert named[k].name == sig.params[i].name;
    }
  }

  /** The arguments of a call: the declared slots, defaults in the holes, and then the tail. */
  lemma CallLayout<V(0)>(sig: Sig<V>, nil: V, args: seq<V>, named: seq<Named<V>>)
    requires Bind(sig, nil, args, named).Call?
    ensures |Slots(sig, args, named)| == |sig.params| && SendError(sig, |args|, named).None?
    ensures var slots, out := Slots(sig, args, named), Bind(sig, nil, args, named).args;
      var n := Last(slots);
      && |out| == n + |Tail(sig, args)| && CheckArgc(sig, |out|).None?
      && (forall i :: 0 <= i < n ==> out[i] == if slots[i].Some? then slots[i].value else HoleDefault(sig, nil, i))
      && (forall i :: n <= i < |out| ==> out[i] == Tail(sig, args)[i - n])
  {
    hide Slots, Last, Lookup, SendError, Position, CheckArgc, HoleDefault, HasUnplaced, Tail;
    SlotsLength(sig, args, named);
  }

  /** The count of a call: no less than its positionals, and no more than its last argument. */
  lemma CallCount<V>(sig: Sig<V>, args: seq<V>, named: seq<Named<V>>)
    ensures var n := Last(Slots(sig, args, named)) + |Tail(sig, args)|;
      && |args| <= n
      && (n > |args| ==> Reaches(sig, named, n - 1) && n == Last(Slots(sig, args, named)))
      && (forall i: nat :: Reaches(sig, named, i) ==> i < n)
  {
    hide Reaches, Slots, Last;
    var slots := Slots(sig, args, named);
    assert |slots| == |sig.params| by { SlotsLength(sig, args, named); }
    forall i: nat | i < |slots| ensures slots[i].Some? <==> i < |args| || Reaches(sig, named, i) {
      SlotFilled(sig, args, named, i);
    }
    forall i: nat | Reaches(sig, named, i) ensures i < Last(slots) {
      ReachesDeclared(sig, named, i);
    }
    if 0 < |args| <= |slots| {
      assert slots[|args| - 1].Some?;
    } else if |args| > |slots| > 0 {
      assert slots[|slots| - 1].Some?;
    }
  }

  lemma SlotsLength<V>(sig: Sig<V>, args: seq<V>, named: seq<Named<V>>)
    ensures |Slots(sig, args, named)| == |sig.params|
  {
  }

  lemma ReachesDeclared<V>(sig: Sig<V>, named: seq<Named<V>>, i: nat)
    requires Reaches(sig, named, i)
    ensures i < |sig.params|
  {
  }

  /**
    A call that succeeds, with distinct names, keeps every argument: positionals stay where they are, each name
    lands at the position it is declared at, every other slot below the count holds its declared default, and
    the count is an accepted one that ends with the last argument.
  */
  lemma CallKeepsArguments<V(0)>(sig: Sig<V>, nil: V, args: seq<V>, named: seq<Named<V>>)
    requires DistinctParams(sig.params) && DistinctNames(named) && Bind(sig, nil, args, named).Call?
    ensures var out := Bind(sig, nil, args, named).args;
      && args <= out
      && (forall i: nat, v :: i < |sig.params| && Named(sig.params[i].name, v) in named ==>
            |args| <= i < |out| && out[i] == v)
      && (forall i: nat :: |args| <= i < |out| && !Reaches(sig, named, i) ==>
            i < |sig.params| && out[i] == HoleDefault(sig, nil, i))
      && (|out| > |args| ==> Reaches(sig, named, |out| - 1))
      && Declares(sig, |out|)
  {
    hide Reaches, Slots, Last, Lookup, Fill, SendError, Position, DistinctNames, CheckArgc, HoleDefault, DistinctParams;
    hide Declares, Bind;
    var slots := Slots(sig, args, named);
    var out := Bind(sig, nil, args, named).args;
    SlotsLength(sig, args, named);
    CallLayout(sig, nil, args, named);
    CallCount(sig, args, named);
    CountAccepted(sig, |out|);
    assert |out| == Last(slots) + |Tail(sig, args)|;
    forall i: nat | i < |slots|
      ensures slots[i].Some? <==> i < |args| || Reaches(sig, named, i)
      ensures i < |args| ==> slots[i] == Some(args[i])
    {
      SlotFilled(sig, args, named, i);
    }
    forall i: nat, v | i < |sig.params| && Named(sig.params[i].name, v) in named
      ensures |args| <= i < |out| && out[i] == v
    {
      PlacedName(sig, args, named, i, v);
      ReachesBy(sig, named, i, v);
    }
    forall i: nat | i < |args| ensures out[i] == args[i] {
    }
  }

  lemma ReachesBy<V>(sig: Sig<V>, named: seq<Named<V>>, i: nat, v: V)
    requires i < |sig.params| && Named(sig.params[i].name, v) in named
    ensures Reaches(sig, named, i)
  {
    var k :| 0 <= k < |named| && named[k] == Named(sig.params[i].name, v);
    assert named[k].name == sig.params[i].name;
  }

  lemma PlacedName<V(0)>(sig: Sig<V>, args: seq<V>, named: seq<Named<V>>, i: nat, v: V)
    requires DistinctParams(sig.params) && DistinctNames(named) && SendError(sig, |args|, named).None?
    requires i < |sig.params| && Named(sig.params[i].name, v) in named
    ensures |args| <= i && Slots(sig, args, named)[i] == Some(v)
  {
    hide DistinctParams, DistinctNames, Lookup, Position;
    var k :| 0 <= k < |named| && named[k] == Named(sig.params[i].name, v);
    PositionIs(sig.params, i);
    assert Position(sig.params, named[k].name) == Some(i);
    LookupFinds(named, named[k]);
  }

  // ---------- what a refusal says is so ----------

  /** Slot `i` is the first that the call jumps over. */
  ghost predicate JumpsFirst<V>(sig: Sig<V>, args: seq<V>, named: seq<Named<V>>, i: nat) {
    && |args| <= i < |sig.params| && !Reaches(sig, named, i)
    && (forall j: nat :: |args| <= j < i ==> Reaches(sig, named, j))
    && (exists j: nat :: i < j && Reaches(sig, named, j))
  }

  /** Every refusal names what is wrong with the call, a hole ahead of the count. */
  lemma RefusalIsTrue<V(0)>(sig: Sig<V>, nil: V, args: seq<V>, named: seq<Named<V>>)
    ensures match Bind(sig, nil, args, named)
      case Refused(NotPassed(i)) => JumpsFirst(sig, args, named, i) && sig.params[i].def.Required?
      case Refused(MustBePassed(i)) => JumpsFirst(sig, args, named, i) && sig.params[i].def.Unknown?
      case Refused(WrongCount(bound, expected, argc)) =>
        && CheckArgc(sig, argc) == Some(WrongCount(bound, expected, argc))
        && |args| <= argc && (argc > |args| ==> Reaches(sig, named, argc - 1))
        && forall i: nat :: Reaches(sig, named, i) ==> i < argc
      case Overwrites(name) => exists k, i: nat ::
        0 <= k < |named| && named[k].name == name && i < |sig.params| && sig.params[i].name == name && i < |args|
      case UnknownName(name) => !sig.variadic && exists k ::
        0 <= k < |named| && named[k].name == name && Position(sig.params, name).None?
      case Call(_, _) => true
  {
    hide Slots, Last, Lookup, Fill, SendError, Position, HasUnplaced, Reaches, FirstHole;
    SendErrorIsTrue(sig, |args|, named);
    var slots := Slots(sig, args, named);
    SlotsLength(sig, args, named);
    CallCount(sig, args, named);
    var hole := FirstHole(slots, Last(slots));
    if hole.Some? {
      forall i: nat | i < |slots| ensures slots[i].Some? <==> i < |args| || Reaches(sig, named, i) {
        SlotFilled(sig, args, named, i);
      }
      assert hole.value < Last(slots) - 1;
      assert Reaches(sig, named, Last(slots) - 1);
    }
  }

  lemma {:induction false} SendErrorIsTrue<V(0)>(sig: Sig<V>, argc: nat, named: seq<Named<V>>)
    ensures match SendError(sig, argc, named)
      case None => true
      case Some(Overwrites(name)) => exists k, i: nat ::
        0 <= k < |named| && named[k].name == name && i < |sig.params| && sig.params[i].name == name && i < argc
      case Some(UnknownName(name)) => !sig.variadic && exists k ::
        0 <= k < |named| && named[k].name == name && Position(sig.params, name).None?
      case Some(_) => false
  {
    hide Position;
    if named != [] {
      var k := |named| - 1;
      SendErrorIsTrue(sig, argc, named[..k]);
      assert named[..k] + [named[k]] == named;
    }
  }

  // ---------- the order of the names does not matter ----------

  ghost predicate SameArguments<V>(named: seq<Named<V>>, named': seq<Named<V>>) {
    && DistinctNames(named) && DistinctNames(named')
    && (forall x :: x in named ==> x in named') && (forall x :: x in named' ==> x in named)
  }

  lemma LookupInAnyOrder<V>(named: seq<Named<V>>, named': seq<Named<V>>, name: string)
    requires SameArguments(named, named')
    ensures Lookup(named, name) == Lookup(named', name)
  {
    hide Lookup, DistinctNames;
    var v, v' := Lookup(named, name), Lookup(named', name);
    if v.Some? {
      LookupFinds(named', Named(name, v.value));
    } else if v'.Some? {
      LookupFinds(named, Named(name, v'.value));
    }
  }

  lemma SendErrorInAnyOrder<V(0)>(sig: Sig<V>, argc: nat, named: seq<Named<V>>, named': seq<Named<V>>)
    requires SameArguments(named, named') && SendError(sig, argc, named).None?
    ensures SendError(sig, argc, named').None?
  {
    hide Position, DistinctNames;
    forall k' | 0 <= k' < |named'|
      ensures match Position(sig.params, named'[k'].name) case Some(i) => i >= argc case None => sig.variadic
    {
      assert named'[k'] in named;
      var k :| 0 <= k < |named| && named[k] == named'[k'];
    }
  }

  lemma UnplacedInAnyOrder<V>(sig: Sig<V>, named: seq<Named<V>>, named': seq<Named<V>>)
    requires SameArguments(named, named') && HasUnplaced(sig, named)
    ensures HasUnplaced(sig, named')
  {
    hide Position, DistinctNames;
    var k :| 0 <= k < |named| && Position(sig.params, named[k].name).None?;
    assert named[k] in named';
    var k' :| 0 <= k' < |named'| && named'[k'] == named[k];
    assert Position(sig.params, named'[k'].name).None?;
  }

  lemma SlotsInAnyOrder<V>(sig: Sig<V>, args: seq<V>, named: seq<Named<V>>, named': seq<Named<V>>)
    requires SameArguments(named, named')
    ensures Slots(sig, args, named) == Slots(sig, args, named')
  {
    forall i | 0 <= i < |sig.params| ensures Lookup(named, sig.params[i].name) == Lookup(named', sig.params[i].name) {
      LookupInAnyOrder(named, named', sig.params[i].name);
    }
  }

  lemma SameArgumentsBack<V>(named: seq<Named<V>>, named': seq<Named<V>>)
    requires SameArguments(named, named')
    ensures SameArguments(named', named)
  {
  }

  /**
    The same names in another order bind to the same call or to the same refusal inside the callee; only which
    name a send-time error reports can differ.
  */
  lemma BindInAnyOrder<V(0)>(sig: Sig<V>, nil: V, args: seq<V>, named: seq<Named<V>>, named': seq<Named<V>>)
    requires SameArguments(named, named')
    ensures SendError(sig, |args|, named).Some? <==> SendError(sig, |args|, named').Some?
    ensures SendError(sig, |args|, named).None? ==> Bind(sig, nil, args, named) == Bind(sig, nil, args, named')
  {
    hide Position, Lookup, DistinctNames, Last, FirstHole, Slots, HasUnplaced, CallRefusal, Fill, Tail, SendError;
    hide SameArguments;
    SlotsInAnyOrder(sig, args, named, named');
    SameArgumentsBack(named, named');
    if SendError(sig, |args|, named).None? {
      SendErrorInAnyOrder(sig, |args|, named, named');
    }
    if SendError(sig, |args|, named').None? {
      SendErrorInAnyOrder(sig, |args|, named', named);
    }
    if HasUnplaced(sig, named) {
      UnplacedInAnyOrder(sig, named, named');
    } else if HasUnplaced(sig, named') {
      UnplacedInAnyOrder(sig, named', named);
    }
  }

  // ---------- when is a jumped-over slot sure to have a default? ----------

  /** Every slot that the call jumped over has a published default. */
  ghost predicate HolesPublished<V(0)>(sig: Sig<V>, nil: V, args: seq<V>, named: seq<Named<V>>) {
    var r := Bind(sig, nil, args, named);
    r.Call? ==>
      forall i: nat :: |args| <= i < |r.args| && i < |sig.params| && !Reaches(sig, named, i) ==>
        sig.params[i].def.Known?
  }

  /** Two slots, neither of them last: a hole in the first is filled, and one in the second must be refused. */
  ghost predicate HidesHole<V>(sig: Sig<V>) {
    !sig.pairOnly &&
    exists i, j :: 0 <= i < j < |sig.params| - 1 && sig.params[i].def.Known? && !sig.params[j].def.Known?
  }

  lemma HolesAreFilled<V(0)>(sig: Sig<V>, nil: V, args: seq<V>, named: seq<Named<V>>)
    requires DistinctParams(sig.params) && !HidesHole(sig)
    ensures HolesPublished(sig, nil, args, named)
  {
    hide Reaches, Slots, Last, Lookup, Fill, SendError, Position, FirstHole, DistinctParams, HasUnplaced;
    var r := Bind(sig, nil, args, named);
    if r.Call? {
      var slots := Slots(sig, args, named);
      SlotsLength(sig, args, named);
      CallCount(sig, args, named);
      forall i: nat | |args| <= i < |r.args| && i < |sig.params| && !Reaches(sig, named, i)
        ensures sig.params[i].def.Known?
      {
        SlotFilled(sig, args, named, i);
        assert i < Last(slots);
        var hole := FirstHole(slots, Last(slots));
        assert hole.Some? && hole.value <= i;
        assert sig.params[hole.value].def.Known?;
        assert i != Last(slots) - 1;
      }
    }
  }

  /** Names for the parameters from `from` on, save the one at `skip`. */
  function NamesFrom<V>(params: seq<Param<V>>, nil: V, from: nat, skip: nat): (named: seq<Named<V>>)
    requires from <= |params| && skip < |params|
    ensures forall x :: x in named ==> exists k :: from <= k < |params| && k != skip && x.name == params[k].name
    ensures forall k :: from <= k < |params| && k != skip ==> Named(params[k].name, nil) in named
    decreases |params| - from
  {
    if from == |params| then []
    else if from == skip then NamesFrom(params, nil, from + 1, skip)
    else [Named(params[from].name, nil)] + NamesFrom(params, nil, from + 1, skip)
  }

  lemma {:induction false} NamesFromDistinct<V>(params: seq<Param<V>>, nil: V, from: nat, skip: nat)
    requires from <= |params| && skip < |params| && DistinctParams(params)
    ensures DistinctNames(NamesFrom(params, nil, from, skip))
    decreases |params| - from
  {
    hide DistinctParams, DistinctNames;
    if from == |params| {
      NoNames<V>();
    } else {
      NamesFromDistinct(params, nil, from + 1, skip);
      var rest := NamesFrom(params, nil, from + 1, skip);
      forall k | 0 <= k < |rest| ensures rest[k].name != params[from].name {
        NamesFromLater(params, nil, from, skip, rest[k]);
      }
      DistinctCons(Named(params[from].name, nil), rest);
    }
  }

  lemma NoNames<V>()
    ensures DistinctNames<V>([])
  {
  }

  lemma DistinctCons<V>(x: Named<V>, rest: seq<Named<V>>)
    requires DistinctNames(rest) && forall k :: 0 <= k < |rest| ==> rest[k].name != x.name
    ensures DistinctNames([x] + rest)
  {
  }

  lemma NamesFromLater<V>(params: seq<Param<V>>, nil: V, from: nat, skip: nat, x: Named<V>)
    requires from < |params| && skip < |params| && DistinctParams(params)
    requires x in NamesFrom(params, nil, from + 1, skip)
    ensures x.name != params[from].name
  {
    hide NamesFrom;
    var k :| from + 1 <= k < |params| && k != skip && x.name == params[k].name;
  }

  /** The call that slips a hole through: positionals before slot `i`, names for all but slots `i` and `j`. */
  lemma UnpublishedHole<V(0)>(sig: Sig<V>, nil: V, i: nat, j: nat) returns (args: seq<V>, named: seq<Named<V>>)
    requires DistinctParams(sig.params) && sig.req <= |sig.params| && !sig.pairOnly
    requires i < j < |sig.params| - 1 && sig.params[i].def.Known? && !sig.params[j].def.Known?
    ensures DistinctNames(named) && !HolesPublished(sig, nil, args, named)
  {
    hide Lookup, Fill, Position, DistinctParams, DistinctNames, Slots, NamesFrom, SendError, Last, FirstHole, Reaches;
    args := seq(i, _ => nil);
    named := NamesFrom(sig.params, nil, i + 1, j);
    NamesFromDistinct(sig.params, nil, i + 1, j);
    NamesAreSent(sig, nil, i, j);
    SlotsOfNames(sig, nil, args, i, j);
    var slots := Slots(sig, args, named);
    HoleComesFirst(slots, i, j);
    var r := Bind(sig, nil, args, named);
    assert CallRefusal(sig, slots, |slots|).None?;
    assert r.Call? && |r.args| == |slots|;
    assert |args| <= j < |r.args| && !Reaches(sig, named, j);
  }

  lemma HoleComesFirst<V>(slots: seq<Option<V>>, i: nat, j: nat)
    requires i < j < |slots| - 1 && forall k: nat :: k < |slots| ==> (slots[k].Some? <==> k != i && k != j)
    ensures Last(slots) == |slots| && FirstHole(slots, |slots|) == Some(i)
  {
    hide Last, FirstHole;
    var hole := FirstHole(slots, |slots|);
    assert slots[i].None? && slots[|slots| - 1].Some?;
    assert hole.Some?;
    assert hole.value <= i;
  }

  lemma NamesAreSent<V(0)>(sig: Sig<V>, nil: V, i: nat, j: nat)
    requires DistinctParams(sig.params) && i < j < |sig.params|
    ensures SendError(sig, i, NamesFrom(sig.params, nil, i + 1, j)).None?
  {
    hide Position, DistinctParams, NamesFrom;
    var named := NamesFrom(sig.params, nil, i + 1, j);
    forall k | 0 <= k < |named|
      ensures match Position(sig.params, named[k].name) case Some(at) => at >= i case None => sig.variadic
    {
      assert named[k] in named;
      var at :| i < at < |sig.params| && at != j && named[k].name == sig.params[at].name;
      PositionIs(sig.params, at);
    }
  }

  lemma SlotsOfNames<V(0)>(sig: Sig<V>, nil: V, args: seq<V>, i: nat, j: nat)
    requires DistinctParams(sig.params) && |args| == i < j < |sig.params|
    ensures var named := NamesFrom(sig.params, nil, i + 1, j);
      var slots := Slots(sig, args, named);
      && |slots| == |sig.params| && !Reaches(sig, named, j)
      && forall k: nat :: k < |slots| ==> (slots[k].Some? <==> k != i && k != j)
  {
    hide DistinctParams, Slots, NamesFrom, Reaches;
    var named := NamesFrom(sig.params, nil, i + 1, j);
    var slots := Slots(sig, args, named);
    SlotsLength(sig, args, named);
    NamesReach(sig, nil, i + 1, j, j);
    forall k: nat | k < |slots| ensures slots[k].Some? <==> k != i && k != j {
      NamesReach(sig, nil, i + 1, j, k);
      SlotFilled(sig, args, named, k);
    }
  }

  lemma NamesReach<V>(sig: Sig<V>, nil: V, from: nat, skip: nat, k: nat)
    requires DistinctParams(sig.params) && from <= |sig.params| && skip < |sig.params| && k < |sig.params|
    ensures Reaches(sig, NamesFrom(sig.params, nil, from, skip), k) <==> from <= k && k != skip
  {
    hide NamesFrom, DistinctParams;
    var named := NamesFrom(sig.params, nil, from, skip);
    if Reaches(sig, named, k) {
      var at :| 0 <= at < |named| && named[at].name == sig.params[k].name;
      assert named[at] in named;
      var p :| from <= p < |sig.params| && p != skip && named[at].name == sig.params[p].name;
      SameName(sig.params, k, p);
    }
    if from <= k && k != skip {
      ReachesBy(sig, named, k, nil);
    }
  }

  /**
    Only the first hole is asked for its refusal, so `hole_default` can meet a slot with no published default.
    A signature rules that out for every call exactly when no slot with a default stands before one without,
    the last parameter aside.
  */
  lemma HolesPublishedExactly<V(0, !new)>(sig: Sig<V>, nil: V)
    requires DistinctParams(sig.params) && sig.req <= |sig.params|
    ensures (forall args, named :: DistinctNames(named) ==> HolesPublished(sig, nil, args, named)) <==> !HidesHole(sig)
  {
    hide HolesPublished, DistinctParams, DistinctNames;
    if HidesHole(sig) {
      var i, j :| 0 <= i < j < |sig.params| - 1 && sig.params[i].def.Known? && !sig.params[j].def.Known?;
      var args, named := UnpublishedHole(sig, nil, i, j);
    } else {
      forall args, named | DistinctNames(named) ensures HolesPublished(sig, nil, args, named) {
        HolesAreFilled(sig, nil, args, named);
      }
    }
  }
}
