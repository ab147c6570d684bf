/** What a library call refuses about its arguments: `check_args` of `src/argsig.rs` and `check_call` of
    `src/argtypes.rs`, whose per-parameter tables are merged by position. */
module CheckArgs {
  import opened Common
  import opened StoredStrings
  import opened Compare
  import ArgBinding

  /** An argument; arrays, objects and resources are handles into the host's heap. */
  datatype Arg = Undef | BoolArg(b: bool) | IntArg(n: int) | FloatArg(f: Float) | StrArg(s: Text) | Obj(handle: nat)

  /** What the interpreter knows about a value. `isStream` holds of closed streams too, `isOpen` does not. */
  datatype Host = Host(
    isArray: nat -> bool,
    hasToString: nat -> bool,
    isStream: Arg -> bool,
    isOpen: Arg -> bool,
    readWhole: Text -> Option<Number>,
    isCallable: Arg -> bool)

  /** One row entry of the table of declared types; positions count from 1. */
  datatype Decl = Decl(position: nat, ty: string)

  datatype Reason = WrongType | ClosedStream | BadCallback

  datatype Refusal = Count(count: ArgBinding.Refusal) | At(position: nat, why: Reason)

  datatype Loss = NullPassed | LossyFloat | LossyString

  /** A deprecation raised on the way. */
  datatype Note = Note(position: nat, loss: Loss)

  type Sig = ArgBinding.Sig<Arg>

  const U32_MAX: nat := 0xFFFF_FFFF

  ghost predicate Ascending(table: seq<Decl>) {
    && (forall k :: 0 <= k < |table| ==> 1 <= table[k].position < U32_MAX)
    && (forall j, k :: 0 <= j < k < |table| ==> table[j].position < table[k].position)
  }

  // ---------- declared types ----------

  /** A type without its leading question marks. */
  function Bare(ty: string): (bare: string)
    ensures |bare| <= |ty| && (bare == "" || bare[0] != '?')
  {
    if ty != "" && ty[0] == '?' then Bare(ty[1..]) else ty
  }

  predicate Nullable(ty: string) {
    ty != "" && ty[0] == '?'
  }

  /** The members of a union. */
  function Members(ty: string): (ms: seq<string>)
    ensures forall m :: m in ms ==> |m| <= |ty| && ('|' in ty ==> |m| < |ty|)
  {
    if ty == "" then [""]
    else
      var ms := Members(ty[..|ty| - 1]);
      if ty[|ty| - 1] == '|' then ms + [""] else GrowLast(ms, ty[|ty| - 1])
  }

  function GrowLast(ms: seq<string>, c: char): (r: seq<string>)
    ensures forall m :: m in r ==> m in ms || (exists p :: p in ms && m == p + [c])
  {
    if ms == [] then [] else ms[..|ms| - 1] + [ms[|ms| - 1] + [c]]
  }

  /** `ZEND_DOUBLE_FITS_LONG`. */
  predicate DoubleFitsLong(f: Float) {
    f.Finite? && -9223372036854775808.0 <= f.value < 9223372036854775808.0
  }

  predicate HasFraction(f: Float) {
    !f.Finite? || f.value.Floor as real != f.value
  }

  predicate IsScalarName(ty: string) {
    ty in ["string", "int", "float", "bool"]
  }

  /** Strict mode: a scalar parameter takes exactly its own type, with int widening to float. */
  predicate TakesStrictly(ty: string, v: Arg)
    requires IsScalarName(ty)
  {
    if ty == "string" then v.StrArg?
    else if ty == "int" then v.IntArg?
    else if ty == "float" then v.IntArg? || v.FloatArg?
    else v.BoolArg?
  }

  /** The coercive rule for one type name; a name outside the table is not judged. */
  predicate Takes(h: Host, ty: string, v: Arg) {
    var isArray := v.Obj? && h.isArray(v.handle);
    var isObject := v.Obj? && !isArray;
    if ty == "array" then isArray
    else if ty == "object" then isObject
    else if ty == "string" then !isArray && (isObject ==> h.hasToString(v.handle))
    else if ty == "int" then
      match v
      case Obj(_) => false
      case FloatArg(f) => DoubleFitsLong(f)
      case StrArg(s) =>
        (match h.readWhole(s)
         case Some(FloatNumber(f)) => DoubleFitsLong(f)
         case Some(IntNumber(_)) => true
         case None => false)
      case _ => true
    else if ty == "float" then
      match v
      case Obj(_) => false
      case StrArg(s) => h.readWhole(s).Some?
      case _ => true
    else if ty == "bool" then !v.Obj?
    else if ty == "resource" || ty == "stream" then h.isStream(v)
    else true
  }

  /** `satisfies`. */
  predicate Satisfies(h: Host, ty: string, v: Arg, strict: bool)
    decreases |ty|
  {
    if Nullable(ty) then Satisfies(h, ty[1..], v, strict)
    else if '|' in ty then exists m :: m in Members(ty) && Satisfies(h, m, v, strict)
    else if strict && IsScalarName(ty) then TakesStrictly(ty, v)
    else Takes(h, ty, v)
  }

  /** A type that offers a scalar, which is what null coerces to. */
  predicate OffersScalar(ty: string) {
    exists m :: m in Members(Bare(ty)) && IsScalarName(m)
  }

  /** `deprecate_lossy_long`. */
  function LongLoss(h: Host, v: Arg): Option<Loss> {
    match v
    case FloatArg(f) => if HasFraction(f) then Some(LossyFloat) else None
    case StrArg(s) =>
      (match h.readWhole(s)
       case Some(FloatNumber(f)) => if HasFraction(f) then Some(LossyString) else None
       case _ => None)
    case _ => None
  }

  // ---------- one parameter at a time, left to right ----------

  datatype Verdict = Verdict(refusal: Option<Reason>, loss: Option<Loss>)

  /** What a declared type makes of a value. */
  function Judge(h: Host, ty: string, v: Arg, strict: bool): Verdict {
    if v.Undef? then
      if Nullable(ty) then Verdict(None, None)
      else if OffersScalar(ty) && !strict then Verdict(None, Some(NullPassed))
      else Verdict(Some(WrongType), None)
    else if !Satisfies(h, ty, v, strict) then Verdict(Some(WrongType), None)
    else Verdict(
      if ty == "stream" && !h.isOpen(v) then Some(ClosedStream) else None,
      if !strict && Bare(ty) == "int" then LongLoss(h, v) else None)
  }

  /** The declared type of the parameter at a position. */
  function DeclaredAt(table: seq<Decl>, position: nat): (ty: Option<string>)
    ensures ty.Some? ==> Decl(position, ty.value) in table
    ensures ty.None? ==> forall d :: d in table ==> d.position != position
  {
    if table == [] then None
    else if table[0].position == position then Some(table[0].ty)
    else DeclaredAt(table[1..], position)
  }

  /** `callable_param`: the position of the first parameter declared `callable`. */
  function CallableParam(params: seq<ArgBinding.Param<Arg>>): (at: Option<nat>)
    ensures at.Some? ==> 1 <= at.value <= |params| && Bare(params[at.value - 1].ty) == "callable"
    ensures forall i :: 0 <= i < (if at.Some? then at.value - 1 else |params|) ==> Bare(params[i].ty) != "callable"
  {
    CallableFrom(params, 0)
  }

  function CallableFrom(params: seq<ArgBinding.Param<Arg>>, from: nat): (at: Option<nat>)
    requires from <= |params| && forall i :: 0 <= i < from ==> Bare(params[i].ty) != "callable"
    ensures at.Some? ==> 1 <= at.value <= |params| && Bare(params[at.value - 1].ty) == "callable"
    ensures forall i :: 0 <= i < (if at.Some? then at.value - 1 else |params|) ==> Bare(params[i].ty) != "callable"
    decreases |params| - from
  {
    if from == |params| then None
    else if Bare(params[from].ty) == "callable" then Some(from + 1)
    else CallableFrom(params, from + 1)
  }

  predicate IsBadCallback(h: Host, sig: Option<Sig>, position: nat, v: Arg) {
    && sig.Some?
    && CallableParam(sig.value.params) == Some(position)
    && !(Nullable(sig.value.params[position - 1].ty) && v.Undef?)
    && !h.isCallable(v)
  }

  /** The whole of what the two tables say about the argument at one position. */
  function JudgeAt(h: Host, sig: Option<Sig>, table: seq<Decl>, position: nat, v: Arg, strict: bool): Verdict {
    if IsBadCallback(h, sig, position, v) then Verdict(Some(BadCallback), None)
    else match DeclaredAt(table, position)
      case Some(ty) => Judge(h, ty, v, strict)
      case None => Verdict(None, None)
  }

  datatype Outcome = Outcome(refusal: Option<Refusal>, notes: seq<Note>)

  function NotesOf(position: nat, verdict: Verdict): seq<Note> {
    if verdict.loss.Some? then [Note(position, verdict.loss.value)] else []
  }

  /** The first `n` arguments judged left to right, up to the first that is refused. */
  function LeftToRight(h: Host, sig: Option<Sig>, table: seq<Decl>, args: seq<Arg>, strict: bool, n: nat): Outcome
    requires n <= |args|
  {
    if n == 0 then Outcome(None, [])
    else
      var before := LeftToRight(h, sig, table, args, strict, n - 1);
      if before.refusal.Some? then before
      else
        var verdict := JudgeAt(h, sig, table, n, args[n - 1], strict);
        Outcome(
          if verdict.refusal.Some? then Some(At(n, verdict.refusal.value)) else None,
          before.notes + NotesOf(n, verdict))
  }

  /** The count, and then the arguments left to right. */
  function Checked(h: Host, sig: Option<Sig>, table: seq<Decl>, args: seq<Arg>, strict: bool): Outcome {
    if sig.Some? && ArgBinding.CheckArgc(sig.value, |args|).Some? then
      Outcome(Some(Count(ArgBinding.CheckArgc(sig.value, |args|).value)), [])
    else LeftToRight(h, sig, table, args, strict, |args|)
  }

  // ---------- the two checks, merged ----------

  ghost predicate NothingSaidAt(h: Host, sig: Option<Sig>, table: seq<Decl>, args: seq<Arg>, strict: bool,
                                position: nat)
    requires 1 <= position <= |args|
  {
    JudgeAt(h, sig, table, position, args[position - 1], strict) == Verdict(None, None)
  }

  /** Positions that nothing is said about change nothing. */
  lemma {:induction false} NothingSaid(h: Host, sig: Option<Sig>, table: seq<Decl>, args: seq<Arg>, strict: bool,
                                       m: nat, n: nat)
    requires m <= n <= |args|
    requires forall p: nat :: m < p <= n ==> NothingSaidAt(h, sig, table, args, strict, p)
    ensures LeftToRight(h, sig, table, args, strict, n) == LeftToRight(h, sig, table, args, strict, m)
  {
    hide JudgeAt;
    if m < n {
      NothingSaid(h, sig, table, args, strict, m, n - 1);
      assert NothingSaidAt(h, sig, table, args, strict, n);
      var before := LeftToRight(h, sig, table, args, strict, n - 1);
      assert before.notes + [] == before.notes;
    }
  }

  /** Nothing after a refusal counts. */
  lemma {:induction false} RefusalStands(h: Host, sig: Option<Sig>, table: seq<Decl>, args: seq<Arg>, strict: bool,
                                         m: nat, n: nat)
    requires m <= n <= |args| && LeftToRight(h, sig, table, args, strict, m).refusal.Some?
    ensures LeftToRight(h, sig, table, args, strict, n) == LeftToRight(h, sig, table, args, strict, m)
  {
    hide JudgeAt;
    if m < n {
      RefusalStands(h, sig, table, args, strict, m, n - 1);
    }
  }

  lemma {:induction false} DeclaredIs(table: seq<Decl>, k: nat)
    requires Ascending(table) && k < |table|
    ensures DeclaredAt(table, table[k].position) == Some(table[k].ty)
  {
    var ty := DeclaredAt(table, table[k].position);
    assert table[k] in table;
    assert ty.Some?;
    var j :| 0 <= j < |table| && table[j] == Decl(table[k].position, ty.value);
    RowsAscend(table, j, k);
    RowsAscend(table, k, j);
  }

  lemma RowsAscend(table: seq<Decl>, j: nat, k: nat)
    requires Ascending(table) && j < |table| && k < |table|
    ensures j < k ==> table[j].position < table[k].position
  {
  }

  /** No position between two neighbouring rows is declared, nor any beyond the last. */
  lemma UndeclaredBetween(table: seq<Decl>, k: nat, position: nat)
    requires Ascending(table) && k <= |table|
    requires k == 0 || table[k - 1].position < position
    requires k == |table| || position < table[k].position
    ensures DeclaredAt(table, position).None?
  {
    hide Ascending;
    var ty := DeclaredAt(table, position);
    if ty.Some? {
      var j :| 0 <= j < |table| && table[j] == Decl(position, ty.value);
      if j < k {
        RowsAscend(table, j, k - 1);
      } else {
        RowsAscend(table, k, j);
      }
    }
  }

  /** The positions up to row `k`, below the first undeclared gap. */
  function Reached(table: seq<Decl>, k: nat, n: nat): nat
    requires k <= |table|
  {
    if k == 0 then 0 else if table[k - 1].position < n then table[k - 1].position else n
  }

  lemma SkipGap(h: Host, table: seq<Decl>, args: seq<Arg>, strict: bool, k: nat, n: nat)
    requires Ascending(table) && k <= |table| && n <= |args|
    requires k == |table| || n < table[k].position
    ensures LeftToRight(h, None, table, args, strict, n) ==
            LeftToRight(h, None, table, args, strict, Reached(table, k, n))
  {
    hide LeftToRight, Judge, DeclaredAt, Ascending;
    var m := Reached(table, k, n);
    forall p: nat | m < p <= n ensures NothingSaidAt(h, None, table, args, strict, p) {
      UndeclaredBetween(table, k, p);
    }
    NothingSaid(h, None, table, args, strict, m, n);
  }

  function Min(a: nat, b: nat): nat {
    if a < b then a else b
  }

  /** `check_call`: the declared types of the parameters before `stopAt`. */
  method CheckCall(h: Host, table: seq<Decl>, args: seq<Arg>, stopAt: nat, strict: bool)
    returns (r: Option<Refusal>, notes: seq<Note>)
    requires Ascending(table) && 1 <= stopAt
    ensures Outcome(r, notes) == LeftToRight(h, None, table, args, strict, Min(stopAt - 1, |args|))
  {
    hide LeftToRight, Satisfies, DeclaredAt, Members, Bare, LongLoss, Ascending;
    notes := [];
    var k := 0;
    ghost var limit := Min(stopAt - 1, |args|);
    StartWalk(h, None, table, args, strict);
    while k < |table|
      invariant k <= |table|
      invariant k > 0 ==> table[k - 1].position < stopAt
      invariant Outcome(None, notes) == LeftToRight(h, None, table, args, strict, Reached(table, k, limit))
    {
      var position, ty := table[k].position, table[k].ty;
      FirstPosition(table, k);
      if position >= stopAt {
        break;
      }
      if position > |args| {
        SkipGap(h, table, args, strict, k, |args|);
        k := k + 1;
        continue;
      }
      SkipGap(h, table, args, strict, k, position - 1);
      TypedStep(h, table, args, strict, k);
      var v := args[position - 1];
      if v.Undef? {
        var scalar := OffersScalar(ty);
        if scalar && !strict && !Nullable(ty) {
          notes := notes + [Note(position, NullPassed)];
        }
        if (scalar && !strict) || Nullable(ty) {
          k := k + 1;
          continue;
        }
      } else if Satisfies(h, ty, v, strict) {
        if !strict && Bare(ty) == "int" {
          var loss := LongLoss(h, v);
          if loss.Some? {
            notes := notes + [Note(position, loss.value)];
          }
        }
        if ty == "stream" && !h.isOpen(v) {
          RefusalStands(h, None, table, args, strict, position, limit);
          return Some(At(position, ClosedStream)), notes;
        }
        k := k + 1;
        continue;
      }
      RefusalStands(h, None, table, args, strict, position, limit);
      return Some(At(position, WrongType)), notes;
    }
    SkipGap(h, table, args, strict, k, limit);
    return None, notes;
  }

  lemma StartWalk(h: Host, sig: Option<Sig>, table: seq<Decl>, args: seq<Arg>, strict: bool)
    ensures LeftToRight(h, sig, table, args, strict, 0) == Outcome(None, [])
  {
  }

  lemma FirstPosition(table: seq<Decl>, k: nat)
    requires Ascending(table) && k < |table|
    ensures 1 <= table[k].position < U32_MAX
    ensures k > 0 ==> table[k - 1].position < table[k].position
  {
  }

  /** One declared argument, judged. */
  lemma TypedStep(h: Host, table: seq<Decl>, args: seq<Arg>, strict: bool, k: nat)
    requires Ascending(table) && k < |table| && table[k].position <= |args|
    requires 1 <= table[k].position
    requires LeftToRight(h, None, table, args, strict, table[k].position - 1).refusal.None?
    ensures var position := table[k].position;
      var verdict := Judge(h, table[k].ty, args[position - 1], strict);
      LeftToRight(h, None, table, args, strict, position) ==
        Outcome(
          if verdict.refusal.Some? then Some(At(position, verdict.refusal.value)) else None,
          LeftToRight(h, None, table, args, strict, position - 1).notes + NotesOf(position, verdict))
  {
    hide Judge, DeclaredAt, Ascending;
    DeclaredIs(table, k);
  }

  ghost predicate BadCallbackAt(h: Host, sig: Option<Sig>, args: seq<Arg>, position: nat) {
    1 <= position <= |args| && IsBadCallback(h, sig, position, args[position - 1])
  }

  /** Ahead of the callback position a signature makes no difference, and none at all if the callback is good. */
  lemma {:induction false} SameWithoutCallback(h: Host, sig: Option<Sig>, table: seq<Decl>, args: seq<Arg>,
                                               strict: bool, n: nat)
    requires n <= |args|
    requires forall p: nat :: p <= n ==> !BadCallbackAt(h, sig, args, p)
    ensures LeftToRight(h, sig, table, args, strict, n) == LeftToRight(h, None, table, args, strict, n)
  {
    hide Judge, DeclaredAt, IsBadCallback;
    if n > 0 {
      SameWithoutCallback(h, sig, table, args, strict, n - 1);
      assert !BadCallbackAt(h, sig, args, n);
      NoSignatureNoCallback(h, n, args[n - 1]);
    }
  }

  lemma NoSignatureNoCallback(h: Host, position: nat, v: Arg)
    ensures !IsBadCallback(h, None, position, v)
  {
  }

  /** `check_callable`: the position of an argument that is no callback. */
  method CheckCallable(h: Host, sig: Sig, args: seq<Arg>) returns (bad: Option<nat>)
    ensures bad.Some? ==> BadCallbackAt(h, Some(sig), args, bad.value)
    ensures forall p: nat :: p < (if bad.Some? then bad.value else |args| + 1) ==> !BadCallbackAt(h, Some(sig), args, p)
  {
    var at := CallableParam(sig.params);
    if at.None? || at.value > |args| {
      return None;
    }
    var v := args[at.value - 1];
    if (Nullable(sig.params[at.value - 1].ty) && v.Undef?) || h.isCallable(v) {
      return None;
    }
    return at;
  }

  /**
    `check_args`: two tables read one after the other, each up to where the other refused, come to one pass over
    the arguments from left to right.
  */
  method CheckArgs(h: Host, sig: Option<Sig>, table: seq<Decl>, args: seq<Arg>, strict: bool)
    returns (r: Option<Refusal>, notes: seq<Note>)
    requires Ascending(table) && |args| < U32_MAX
    ensures Outcome(r, notes) == Checked(h, sig, table, args, strict)
  {
    hide IsBadCallback, DeclaredAt, Judge, LeftToRight;
    if sig.None? {
      r, notes := CheckCall(h, table, args, U32_MAX, strict);
      return;
    }
    var count := ArgBinding.CheckArgc(sig.value, |args|);
    if count.Some? {
      return Some(Count(count.value)), [];
    }
    var bad := CheckCallable(h, sig.value, args);
    r, notes := CheckCall(h, table, args, if bad.Some? then bad.value else U32_MAX, strict);
    if bad.None? {
      SameWithoutCallback(h, sig, table, args, strict, |args|);
    } else {
      CallbackRefused(h, sig, table, args, strict, bad.value);
      r := if r.Some? then r else Some(At(bad.value, BadCallback));
    }
  }

  lemma CallbackRefused(h: Host, sig: Option<Sig>, table: seq<Decl>, args: seq<Arg>, strict: bool, at: nat)
    requires BadCallbackAt(h, sig, args, at)
    ensures var before := LeftToRight(h, None, table, args, strict, at - 1);
      LeftToRight(h, sig, table, args, strict, |args|) ==
        if before.refusal.Some? then before else Outcome(Some(At(at, BadCallback)), before.notes)
  {
    hide Judge, DeclaredAt, CallableParam;
    forall p: nat | p < at ensures !BadCallbackAt(h, sig, args, p) {
    }
    SameWithoutCallback(h, sig, table, args, strict, at - 1);
    var before := LeftToRight(h, sig, table, args, strict, at - 1);
    assert before.notes + [] == before.notes;
    RefusalStands(h, sig, table, args, strict, at, |args|);
  }

  // ---------- what the merged check promises ----------

  ghost predicate RefusedAt(h: Host, sig: Option<Sig>, table: seq<Decl>, args: seq<Arg>, strict: bool, position: nat) {
    1 <= position <= |args| && JudgeAt(h, sig, table, position, args[position - 1], strict).refusal.Some?
  }

  /**
    The refusal is the one at the least refused position, and the deprecations are those of the positions before
    it, in order.
  */
  lemma {:induction false} LeastRefusal(h: Host, sig: Option<Sig>, table: seq<Decl>, args: seq<Arg>, strict: bool,
                                        n: nat)
    requires n <= |args|
    ensures var o := LeftToRight(h, sig, table, args, strict, n);
      && (o.refusal.None? <==> forall p: nat :: p <= n ==> !RefusedAt(h, sig, table, args, strict, p))
      && (o.refusal.Some? ==>
            && o.refusal.value.At?
            && var p := o.refusal.value.position;
               && p <= n && RefusedAt(h, sig, table, args, strict, p)
               && JudgeAt(h, sig, table, p, args[p - 1], strict).refusal == Some(o.refusal.value.why)
               && forall q: nat :: q < p ==> !RefusedAt(h, sig, table, args, strict, q))
  {
    hide JudgeAt;
    if n > 0 {
      LeastRefusal(h, sig, table, args, strict, n - 1);
      assert RefusedAt(h, sig, table, args, strict, n) <==>
             JudgeAt(h, sig, table, n, args[n - 1], strict).refusal.Some?;
    }
  }

  lemma RefusedQuietly(h: Host, sig: Option<Sig>, table: seq<Decl>, position: nat, v: Arg, strict: bool)
    ensures var verdict := JudgeAt(h, sig, table, position, v, strict); verdict.refusal.None? || verdict.loss.None?
  {
    assert Bare("stream") == "stream";
  }

  /** Deprecations are raised in order of position and only ahead of a refusal. */
  lemma {:induction false} NotesPrecedeRefusal(h: Host, sig: Option<Sig>, table: seq<Decl>, args: seq<Arg>,
                                               strict: bool, n: nat)
    requires n <= |args|
    ensures var o := LeftToRight(h, sig, table, args, strict, n);
      && (forall k :: 0 <= k < |o.notes| ==> 1 <= o.notes[k].position <= n)
      && (forall j, k :: 0 <= j < k < |o.notes| ==> o.notes[j].position < o.notes[k].position)
      && (o.refusal.Some? ==>
            o.refusal.value.At? && forall k :: 0 <= k < |o.notes| ==> o.notes[k].position < o.refusal.value.position)
      && (forall p: nat, loss :: Note(p, loss) in o.notes ==>
            1 <= p <= |args| && JudgeAt(h, sig, table, p, args[p - 1], strict).loss == Some(loss))
  {
    hide JudgeAt;
    if n > 0 {
      NotesPrecedeRefusal(h, sig, table, args, strict, n - 1);
      RefusedQuietly(h, sig, table, n, args[n - 1], strict);
    }
  }

  /** A deprecation at a position that the pass got to is raised. */
  lemma {:induction false} NotesAreComplete(h: Host, sig: Option<Sig>, table: seq<Decl>, args: seq<Arg>,
                                            strict: bool, n: nat, p: nat)
    requires 1 <= p <= n <= |args|
    requires forall q: nat :: q < p ==> !RefusedAt(h, sig, table, args, strict, q)
    ensures var loss := JudgeAt(h, sig, table, p, args[p - 1], strict).loss;
      loss.Some? ==> Note(p, loss.value) in LeftToRight(h, sig, table, args, strict, n).notes
  {
    hide JudgeAt;
    if p < n {
      NotesAreComplete(h, sig, table, args, strict, n - 1, p);
    } else {
      LeastRefusal(h, sig, table, args, strict, n - 1);
    }
  }

  /** Only the arguments up to the refused one matter, as long as the count is the same. */
  lemma {:induction false} LaterArgumentsDoNotMatter(h: Host, sig: Option<Sig>, table: seq<Decl>, args: seq<Arg>,
                                                     args': seq<Arg>, strict: bool)
    requires |args| == |args'|
    requires Checked(h, sig, table, args, strict).refusal.Some?
    requires match Checked(h, sig, table, args, strict).refusal.value
      case Count(_) => true
      case At(p, _) => p <= |args| && args[..p] == args'[..p]
    ensures Checked(h, sig, table, args', strict) == Checked(h, sig, table, args, strict)
  {
    hide JudgeAt;
    var o := Checked(h, sig, table, args, strict);
    LeastRefusal(h, sig, table, args, strict, |args|);
    if o.refusal.value.At? {
      var p := o.refusal.value.position;
      LeastRefusal(h, sig, table, args, strict, p);
      RefusalStands(h, sig, table, args, strict, p, |args|);
      SamePrefix(h, sig, table, args, args', strict, p);
      RefusalStands(h, sig, table, args', strict, p, |args|);
    }
  }

  lemma {:induction false} SamePrefix(h: Host, sig: Option<Sig>, table: seq<Decl>, args: seq<Arg>, args': seq<Arg>,
                                      strict: bool, n: nat)
    requires n <= |args| == |args'| && args[..n] == args'[..n]
    ensures LeftToRight(h, sig, table, args, strict, n) == LeftToRight(h, sig, table, args', strict, n)
  {
    hide JudgeAt;
    if n > 0 {
      assert args[..n][..n - 1] == args[..n - 1] && args'[..n][..n - 1] == args'[..n - 1];
      assert args[..n][n - 1] == args'[..n][n - 1];
      SamePrefix(h, sig, table, args, args', strict, n - 1);
    }
  }

  // ---------- strict calls ----------

  /** What strict mode takes, coercive mode takes. */
  lemma {:induction false} StrictTakesLess(h: Host, ty: string, v: Arg)
    requires Satisfies(h, ty, v, true)
    ensures Satisfies(h, ty, v, false)
    decreases |ty|
  {
    if Nullable(ty) {
      StrictTakesLess(h, ty[1..], v);
    } else if '|' in ty {
      var m :| m in Members(ty) && Satisfies(h, m, v, true);
      StrictTakesLess(h, m, v);
    }
  }

  lemma {:induction false} StrictIntIsInt(h: Host, ty: string, v: Arg)
    requires Satisfies(h, ty, v, true) && Bare(ty) == "int"
    ensures v.IntArg?
    decreases |ty|
  {
    if Nullable(ty) {
      StrictIntIsInt(h, ty[1..], v);
    } else {
      assert ty == "int";
    }
  }

  lemma StrictJudgement(h: Host, sig: Option<Sig>, table: seq<Decl>, position: nat, v: Arg)
    ensures var strictly := JudgeAt(h, sig, table, position, v, true);
      var coercively := JudgeAt(h, sig, table, position, v, false);
      && strictly.loss.None?
      && (strictly.refusal.None? ==> coercively == strictly)
  {
    hide Satisfies, Bare, Members, OffersScalar, DeclaredAt;
    var ty := DeclaredAt(table, position);
    if ty.Some? && !v.Undef? && Satisfies(h, ty.value, v, true) {
      StrictTakesLess(h, ty.value, v);
      if Bare(ty.value) == "int" {
        StrictIntIsInt(h, ty.value, v);
      }
    }
  }

  /**
    A strict call raises no deprecation, and one that is accepted is accepted by coercive mode too, as silently:
    `strict_types` never lets through what the default mode refuses or complains about.
  */
  lemma {:induction false} StrictIsStricter(h: Host, sig: Option<Sig>, table: seq<Decl>, args: seq<Arg>)
    ensures Checked(h, sig, table, args, true).notes == []
    ensures Checked(h, sig, table, args, true).refusal.None? ==>
              Checked(h, sig, table, args, false) == Checked(h, sig, table, args, true)
  {
    StrictPrefix(h, sig, table, args, |args|);
  }

  lemma {:induction false} StrictPrefix(h: Host, sig: Option<Sig>, table: seq<Decl>, args: seq<Arg>, n: nat)
    requires n <= |args|
    ensures var strictly := LeftToRight(h, sig, table, args, true, n);
      strictly.notes == [] && (strictly.refusal.None? ==> LeftToRight(h, sig, table, args, false, n) == strictly)
  {
    hide JudgeAt;
    if n > 0 {
      StrictPrefix(h, sig, table, args, n - 1);
      StrictJudgement(h, sig, table, n, args[n - 1]);
    }
  }
}
