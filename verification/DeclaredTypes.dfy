/** What each declared type lets through: `check_args` on a call with one argument and one row for it. */
module DeclaredTypes {
  import opened Common
  import opened StoredStrings
  import opened Compare
  import opened CheckArgs

  function Answer(h: CheckArgs.Host, ty: string, v: Arg, strict: bool): CheckArgs.Outcome {
    Checked(h, None, [Decl(1, ty)], [v], strict)
  }

  predicate Accepts(h: CheckArgs.Host, ty: string, v: Arg, strict: bool) {
    Answer(h, ty, v, strict).refusal != Some(At(1, WrongType))
  }

  lemma AnswerIsJudgement(h: CheckArgs.Host, ty: string, v: Arg, strict: bool)
    ensures var verdict := Judge(h, ty, v, strict);
      Answer(h, ty, v, strict) ==
      Outcome(if verdict.refusal.Some? then Some(At(1, verdict.refusal.value)) else None, NotesOf(1, verdict))
  {
    hide Judge;
    var none: seq<Note> := [];
    assert LeftToRight(h, None, [Decl(1, ty)], [v], strict, 0) == CheckArgs.Outcome(None, none);
    assert none + NotesOf(1, Judge(h, ty, v, strict)) == NotesOf(1, Judge(h, ty, v, strict));
  }

  lemma AcceptsIsSatisfies(h: CheckArgs.Host, ty: string, v: Arg, strict: bool)
    requires !v.Undef?
    ensures Accepts(h, ty, v, strict) <==> Satisfies(h, ty, v, strict)
  {
    hide Satisfies;
    AnswerIsJudgement(h, ty, v, strict);
  }

  /** A name, and neither a union nor a type that takes null. */
  predicate IsName(ty: string) {
    '|' !in ty && (ty == "" || ty[0] != '?')
  }

  lemma NamedSatisfies(h: CheckArgs.Host, ty: string, v: Arg, strict: bool)
    requires IsName(ty) && !v.Undef?
    ensures Accepts(h, ty, v, strict) <==>
            if strict && IsScalarName(ty) then TakesStrictly(ty, v) else Takes(h, ty, v)
  {
    AcceptsIsSatisfies(h, ty, v, strict);
  }

  // ---------- names ----------

  /** Arrays and objects share the handles between them, and a resource is what the host calls one. */
  lemma HandleTypes(h: CheckArgs.Host, v: Arg, strict: bool)
    requires !v.Undef?
    ensures Accepts(h, "array", v, strict) <==> v.Obj? && h.isArray(v.handle)
    ensures Accepts(h, "object", v, strict) <==> v.Obj? && !h.isArray(v.handle)
    ensures Accepts(h, "resource", v, strict) <==> h.isStream(v)
    ensures Accepts(h, "stream", v, strict) <==> h.isStream(v)
  {
    hide Accepts, Satisfies;
    NamedSatisfies(h, "array", v, strict);
    NamedSatisfies(h, "object", v, strict);
    NamedSatisfies(h, "resource", v, strict);
    NamedSatisfies(h, "stream", v, strict);
  }

  /** An accepted stream is refused all the same when it is closed; nothing else that is accepted ever is. */
  lemma OnlyClosedStreams(h: CheckArgs.Host, ty: string, v: Arg, strict: bool)
    requires Accepts(h, ty, v, strict)
    ensures Answer(h, ty, v, strict).refusal ==
            if ty == "stream" && !h.isOpen(v) then Some(At(1, ClosedStream)) else None
  {
    hide Satisfies, Members, Bare, OffersScalar, LongLoss, Checked;
    AnswerIsJudgement(h, ty, v, strict);
    NoNullStream(h, strict);
  }

  lemma NoNullStream(h: CheckArgs.Host, strict: bool)
    ensures !Accepts(h, "stream", Undef, strict)
  {
    hide Accepts;
    assert IsName("stream");
    NullAnswer(h, ["stream"], strict);
    NullRefused(h, strict);
  }

  lemma NullRefused(h: CheckArgs.Host, strict: bool)
    requires Answer(h, "stream", Undef, strict) == CheckArgs.Outcome(Some(At(1, WrongType)), [])
    ensures !Accepts(h, "stream", Undef, strict)
  {
    hide Answer;
  }

  predicate FitsI64(f: Compare.Float) {
    f.Finite? && -9223372036854775808.0 <= f.value < 9223372036854775808.0
  }

  /** The number a string stands for as an argument: its own when it reads whole, and else none. */
  lemma CoerciveScalars(h: CheckArgs.Host, v: Arg)
    requires !v.Undef?
    ensures Accepts(h, "string", v, false) <==> !v.Obj? || (!h.isArray(v.handle) && h.hasToString(v.handle))
    ensures Accepts(h, "bool", v, false) <==> !v.Obj?
    ensures Accepts(h, "float", v, false) <==> !v.Obj? && (v.StrArg? ==> h.readWhole(v.s).Some?)
    ensures v.BoolArg? || v.IntArg? ==> Accepts(h, "int", v, false)
    ensures v.Obj? ==> !Accepts(h, "int", v, false)
    ensures v.FloatArg? ==> (Accepts(h, "int", v, false) <==> FitsI64(v.f))
    ensures v.StrArg? ==>
              (Accepts(h, "int", v, false) <==>
               h.readWhole(v.s).Some? && (h.readWhole(v.s).value.FloatNumber? ==> FitsI64(h.readWhole(v.s).value.f)))
  {
    hide Accepts, Satisfies;
    NamedSatisfies(h, "string", v, false);
    NamedSatisfies(h, "bool", v, false);
    NamedSatisfies(h, "float", v, false);
    NamedSatisfies(h, "int", v, false);
  }

  /** Under strict_types a scalar type takes its own values alone, and `float` the integers too. */
  lemma StrictScalars(h: CheckArgs.Host, v: Arg)
    requires !v.Undef?
    ensures Accepts(h, "string", v, true) <==> v.StrArg?
    ensures Accepts(h, "bool", v, true) <==> v.BoolArg?
    ensures Accepts(h, "int", v, true) <==> v.IntArg?
    ensures Accepts(h, "float", v, true) <==> v.FloatArg? || v.IntArg?
  {
    hide Accepts, Satisfies;
    NamedSatisfies(h, "string", v, true);
    NamedSatisfies(h, "bool", v, true);
    NamedSatisfies(h, "float", v, true);
    NamedSatisfies(h, "int", v, true);
  }

  /** A name that is not in the table is not judged. */
  lemma UnknownName(h: CheckArgs.Host, ty: string, v: Arg, strict: bool)
    requires IsName(ty) && !v.Undef?
    requires ty !in ["array", "object", "string", "int", "float", "bool", "resource", "stream"]
    ensures Accepts(h, ty, v, strict)
  {
    hide Accepts, Satisfies;
    NamedSatisfies(h, ty, v, strict);
  }

  // ---------- unions and nullable types ----------

  /** The names with `|` between them. */
  function Union(names: seq<string>): (ty: string)
    requires names != []
  {
    var k := |names| - 1;
    if k == 0 then names[0] else Union(names[..k]) + "|" + names[k]
  }

  ghost predicate AreNames(names: seq<string>) {
    names != [] && forall i :: 0 <= i < |names| ==> IsName(names[i])
  }

  lemma MembersSnoc(ty: string, c: char)
    ensures Members(ty + [c]) == if c == '|' then Members(ty) + [""] else GrowLast(Members(ty), c)
  {
    assert (ty + [c])[..|ty|] == ty;
  }

  lemma {:induction false} MembersAfterBar(u: string, t: string)
    requires '|' !in t
    ensures Members(u + "|" + t) == Members(u) + [t]
  {
    hide Members;
    if t == "" {
      MembersSnoc(u, '|');
      assert u + "|" + t == u + ['|'];
    } else {
      var init, last := t[..|t| - 1], t[|t| - 1];
      MembersAfterBar(u, init);
      MembersSnoc(u + "|" + init, last);
      assert t == init + [last];
      assert u + "|" + t == u + "|" + init + [last];
    }
  }

  lemma {:induction false} MembersOfName(t: string)
    requires '|' !in t
    ensures Members(t) == [t]
  {
    if t != "" {
      hide Members;
      var k := |t| - 1;
      MembersOfName(t[..k]);
      MembersSnoc(t[..k], t[k]);
      assert t == t[..k] + [t[k]];
    }
  }

  lemma {:induction false} MembersOfUnion(names: seq<string>)
    requires AreNames(names)
    ensures Members(Union(names)) == names && !Nullable(Union(names))
    ensures '|' in Union(names) <==> |names| > 1
  {
    hide Members;
    var k := |names| - 1;
    if k == 0 {
      MembersOfName(names[0]);
    } else {
      MembersOfUnion(names[..k]);
      MembersAfterBar(Union(names[..k]), names[k]);
      assert names == names[..k] + [names[k]];
      assert '|' in "|";
    }
  }

  /** A union accepts what one of its members accepts. */
  lemma UnionAccepts(h: CheckArgs.Host, names: seq<string>, v: Arg, strict: bool)
    requires AreNames(names) && !v.Undef?
    ensures Accepts(h, Union(names), v, strict) <==> exists name :: name in names && Accepts(h, name, v, strict)
  {
    hide Accepts, Union, Members, Takes, TakesStrictly;
    var ty := Union(names);
    MembersOfUnion(names);
    AcceptsIsSatisfies(h, ty, v, strict);
    forall name | name in names ensures Accepts(h, name, v, strict) <==> Satisfies(h, name, v, strict) {
      AcceptsIsSatisfies(h, name, v, strict);
    }
    if |names| == 1 {
      assert ty == names[0] by { UnionOfOne(names); }
    }
  }

  lemma UnionOfOne(names: seq<string>)
    requires |names| == 1
    ensures Union(names) == names[0]
  {
  }

  /** `?T` accepts null in silence, and any other value as `T` does. */
  lemma NullableAccepts(h: CheckArgs.Host, ty: string, v: Arg, strict: bool)
    ensures v.Undef? ==> Answer(h, "?" + ty, v, strict) == CheckArgs.Outcome(None, [])
    ensures !v.Undef? ==> (Accepts(h, "?" + ty, v, strict) <==> Accepts(h, ty, v, strict))
  {
    hide Members, Takes, TakesStrictly;
    AnswerIsJudgement(h, "?" + ty, v, strict);
    if !v.Undef? {
      AcceptsIsSatisfies(h, ty, v, strict);
      AcceptsIsSatisfies(h, "?" + ty, v, strict);
      assert ("?" + ty)[1..] == ty;
    }
  }

  /** Without the question mark, null is a deprecation where a scalar is offered to a coercive call, and else a
      refusal. */
  lemma NullAnswer(h: CheckArgs.Host, names: seq<string>, strict: bool)
    requires AreNames(names)
    ensures Answer(h, Union(names), Undef, strict) ==
            if !strict && exists name :: name in names && name in ["string", "int", "float", "bool"]
            then CheckArgs.Outcome(None, [Note(1, NullPassed)])
            else CheckArgs.Outcome(Some(At(1, WrongType)), [])
  {
    hide Members, Union;
    var ty := Union(names);
    MembersOfUnion(names);
    AnswerIsJudgement(h, ty, Undef, strict);
    assert Bare(ty) == ty;
    assert OffersScalar(ty) <==> exists name :: name in names && IsScalarName(name);
  }

  // ---------- losses ----------

  /** `?` any number of times. */
  function Marks(n: nat): string {
    seq(n, _ => '?')
  }

  /** A type that is `name` behind question marks. */
  ghost predicate Is(ty: string, name: string) {
    exists n: nat :: ty == Marks(n) + name
  }

  lemma {:induction false} BareIs(ty: string, name: string)
    requires name != "" && name[0] != '?'
    ensures Bare(ty) == name <==> Is(ty, name)
  {
    if Nullable(ty) {
      BareIs(ty[1..], name);
      MarkMore(ty, name);
    } else {
      assert ty == name ==> ty == Marks(0) + name;
    }
  }

  lemma MarkMore(ty: string, name: string)
    requires name != "" && name[0] != '?' && Nullable(ty)
    ensures Is(ty, name) <==> Is(ty[1..], name)
  {
    if n: nat :| ty == Marks(n) + name {
      assert n > 0 && ty[1..] == Marks(n - 1) + name;
    }
    if n: nat :| ty[1..] == Marks(n) + name {
      assert ty == Marks(n + 1) + name;
    }
  }

  /** A double that is an integer. */
  ghost predicate IsWhole(f: Compare.Float) {
    f.Finite? && exists n: int :: EqualsReal(n, f.value)
  }

  predicate EqualsReal(n: int, x: real) {
    n as real == x
  }

  lemma FractionIsNotWhole(f: Compare.Float)
    ensures HasFraction(f) <==> !IsWhole(f)
  {
    if f.Finite? {
      assert EqualsReal(f.value.Floor, f.value) <==> f.value.Floor as real == f.value;
    }
  }

  /** An accepted value is noted only where a coercive call makes an `int` of a double with a fraction, or of a
      string that reads as one. */
  lemma LossIsNoted(h: CheckArgs.Host, ty: string, v: Arg, strict: bool)
    requires !v.Undef? && Accepts(h, ty, v, strict)
    ensures Answer(h, ty, v, strict).notes ==
            if strict || !Is(ty, "int") then []
            else if v.FloatArg? && !IsWhole(v.f) then [Note(1, LossyFloat)]
            else if v.StrArg? && h.readWhole(v.s).Some? && h.readWhole(v.s).value.FloatNumber? &&
                    !IsWhole(h.readWhole(v.s).value.f) then [Note(1, LossyString)]
            else []
  {
    hide Satisfies, Is, IsWhole, HasFraction, Bare;
    AnswerIsJudgement(h, ty, v, strict);
    BareIs(ty, "int");
    if v.FloatArg? {
      FractionIsNotWhole(v.f);
    } else if v.StrArg? && h.readWhole(v.s).Some? && h.readWhole(v.s).value.FloatNumber? {
      FractionIsNotWhole(h.readWhole(v.s).value.f);
    }
  }

  // ---------- callbacks ----------

  /** The first parameter declared `callable`, with or without a question mark, stands at `position`. */
  ghost predicate IsFirstCallback(sig: Sig, position: nat) {
    && 1 <= position <= |sig.params|
    && Is(sig.params[position - 1].ty, "callable")
    && forall i :: 0 <= i < position - 1 ==> !Is(sig.params[i].ty, "callable")
  }

  ghost predicate RefusesCallback(h: CheckArgs.Host, sig: Sig, args: seq<Arg>, position: nat) {
    && IsFirstCallback(sig, position) && position <= |args|
    && !h.isCallable(args[position - 1])
    && !(args[position - 1].Undef? && sig.params[position - 1].ty[..1] == "?")
  }

  /** Without declared types the one refusal of a call with a declared count is that of its first callback. */
  lemma CallbackAnswer(h: CheckArgs.Host, sig: Sig, args: seq<Arg>, strict: bool)
    requires ArgBinding.Declares(sig, |args|)
    ensures var r := Checked(h, Some(sig), [], args, strict).refusal;
      && (r.Some? <==> exists p: nat :: RefusesCallback(h, sig, args, p))
      && forall p: nat :: RefusesCallback(h, sig, args, p) ==> r == Some(At(p, BadCallback))
  {
    hide Is, LeftToRight;
    ArgBinding.CountAccepted(sig, |args|);
    LeastRefusal(h, Some(sig), [], args, strict, |args|);
    forall p: nat ensures RefusedAt(h, Some(sig), [], args, strict, p) <==> RefusesCallback(h, sig, args, p) {
      CallbackJudged(h, sig, args, strict, p);
    }
    forall p: nat, q: nat | RefusesCallback(h, sig, args, p) && RefusesCallback(h, sig, args, q) ensures p == q {
    }
  }

  lemma CallbackJudged(h: CheckArgs.Host, sig: Sig, args: seq<Arg>, strict: bool, p: nat)
    ensures RefusedAt(h, Some(sig), [], args, strict, p) <==> RefusesCallback(h, sig, args, p)
    ensures RefusesCallback(h, sig, args, p) ==>
              JudgeAt(h, Some(sig), [], p, args[p - 1], strict).refusal == Some(BadCallback)
  {
    hide Is, Bare;
    forall i | 0 <= i < |sig.params|
      ensures Bare(sig.params[i].ty) == "callable" <==> Is(sig.params[i].ty, "callable")
    {
      BareIs(sig.params[i].ty, "callable");
    }
    var at := CallableParam(sig.params);
    assert IsFirstCallback(sig, p) <==> at == Some(p);
  }
}
