/** What the parser of `src/parser.rs` makes of a printed default, said of the trees alone. */
module Regrouping {
  import opened Common
  import opened AstExport

  /** What follows a printed condition: nothing, or `?: no`, or `? yes : no`, and whatever follows that in turn. */
  datatype After = Nothing | Short(no: Expr, next: After) | Long(yes: Expr, no: Expr, next: After)

  predicate IsTernary(e: Expr) {
    e.Coalesce? || e.Ternary? || e.Elvis?
  }

  /** An equality whose right operand is a `<=>`, which is printed as if it bound tighter and read as an equal. */
  predicate IsSpaceshipEquality(e: Expr) {
    e.Binary? && e.op in {StrictEq, StrictNe, LooseEq, LooseNe} && e.b.Binary? && e.b.op == Spaceship
  }

  /** A measure of expressions; no part is so small that what attaches to it could outweigh it. */
  type Weight = n: int | n >= 2 witness 2

  function Size(e: Expr): Weight {
    match e
    case Int(_) => 2
    case Atom(_) => 2
    case Array(elems) => 2 + SizeOfAll(elems)
    case Unary(_, x) => 2 + Size(x)
    case Binary(_, a, b) => 2 + Size(a) + Size(b)
    case Coalesce(a, b) => 2 + Size(a) + Size(b)
    case Ternary(cond, yes, no) => 2 + Size(cond) + Size(yes) + Size(no)
    case Elvis(cond, no) => 2 + Size(cond) + Size(no)
  }

  function SizeOfEntry(el: Elem): Weight {
    (match el.key case Some(k) => Size(k) case None => 0) + Size(el.value)
  }

  function SizeOfAll(elems: seq<Elem>): nat {
    if elems == [] then 0 else SizeOfEntry(elems[0]) + SizeOfAll(elems[1..])
  }

  function SizeAfter(t: After): nat {
    match t
    case Nothing => 0
    case Short(no, next) => 1 + Size(no) + SizeAfter(next)
    case Long(yes, no, next) => 1 + Size(yes) + Size(no) + SizeAfter(next)
  }

  /** The tree read where `e` was printed bare and `t` follows: `?` and `:` attach to the last operand of `e`. */
  function Regrouped(e: Expr, t: After): Expr
    decreases Size(e) + SizeAfter(t), 2
  {
    match e
    case Coalesce(a, b) => Coalesce(Regrouped(a, Nothing), RegroupedAt(b, 110, t))
    case Ternary(cond, yes, no) => Regrouped(cond, Long(yes, no, t))
    case Elvis(cond, no) => Regrouped(cond, Short(no, t))
    case _ => Attached(Operand(e), t)
  }

  /** The same where `e` was printed at a priority, in parentheses if it binds looser. */
  function RegroupedAt(e: Expr, priority: nat, t: After): Expr
    decreases Size(e) + SizeAfter(t), 3
  {
    if priority > Priority(e) then Attached(Regrouped(e, Nothing), t) else Regrouped(e, t)
  }

  function Attached(cond: Expr, t: After): Expr
    decreases SizeAfter(t), 1
  {
    match t
    case Nothing => cond
    case Short(no, next) => Elvis(cond, RegroupedAt(no, 101, next))
    case Long(yes, no, next) => Ternary(cond, RegroupedAt(yes, 101, Nothing), RegroupedAt(no, 101, next))
  }

  /** The tree read for an operand, whatever its parts were regrouped to. */
  function Operand(e: Expr): Expr
    requires !IsTernary(e)
    decreases Size(e), 1
  {
    match e
    case Array(elems) => Array(RegroupedElems(elems))
    case Unary(op, x) => Unary(op, Regrouped(x, Nothing))
    case Binary(op, a, b) =>
      if IsSpaceshipEquality(e) then
        assert Size(b) == 2 + Size(b.a) + Size(b.b);
        Binary(Spaceship, Binary(op, Regrouped(a, Nothing), Regrouped(b.a, Nothing)), Regrouped(b.b, Nothing))
      else Binary(op, Regrouped(a, Nothing), Regrouped(b, Nothing))
    case _ => e
  }

  function RegroupedElems(elems: seq<Elem>): seq<Elem>
    decreases SizeOfAll(elems), 4
  {
    if elems == [] then []
    else
      assert SizeOfAll(elems) == SizeOfEntry(elems[0]) + SizeOfAll(elems[1..]) && SizeOfEntry(elems[0]) >= 2;
      [RegroupedEntry(elems[0])] + RegroupedElems(elems[1..])
  }

  function RegroupedEntry(el: Elem): Elem
    decreases SizeOfEntry(el), 3
  {
    var key := match el.key case Some(k) => Some(Regrouped(k, Nothing)) case None => None;
    Elem(key, el.byRef, Regrouped(el.value, Nothing))
  }

  // ---------- what regroups to itself ----------

  /** No `?:`, no `? :` and no `??` is the condition of either of the first two, and no `<=>` stands to the right of
      an equality. */
  predicate Straight(e: Expr) {
    match e
    case Array(elems) => forall i :: 0 <= i < |elems| ==> StraightEntry(elems[i])
    case Unary(_, x) => Straight(x)
    case Binary(_, a, b) => !IsSpaceshipEquality(e) && Straight(a) && Straight(b)
    case Coalesce(a, b) => Straight(a) && Straight(b)
    case Ternary(cond, yes, no) => !IsTernary(cond) && Straight(cond) && Straight(yes) && Straight(no)
    case Elvis(cond, no) => !IsTernary(cond) && Straight(cond) && Straight(no)
    case _ => true
  }

  predicate StraightEntry(el: Elem) {
    (el.key.Some? ==> Straight(el.key.value)) && Straight(el.value)
  }

  /** Nothing regroups to a ternary with a ternary for its condition: the parser attaches to the last operand. */
  lemma {:induction false} ConditionIsOperand(e: Expr, t: After)
    ensures var r := Regrouped(e, t);
      (r.Ternary? ==> !IsTernary(r.cond)) && (r.Elvis? ==> !IsTernary(r.cond))
    decreases e
  {
    hide RegroupedAt;
    match e
    case Ternary(cond, yes, no) => ConditionIsOperand(cond, Long(yes, no, t));
    case Elvis(cond, no) => ConditionIsOperand(cond, Short(no, t));
    case Coalesce(_, _) =>
    case _ => OperandIsOperand(e);
  }

  lemma OperandIsOperand(e: Expr)
    requires !IsTernary(e)
    ensures !IsTernary(Operand(e))
  {
  }

  lemma AtPriority(e: Expr, priority: nat)
    ensures RegroupedAt(e, priority, Nothing) == Regrouped(e, Nothing)
  {
  }

  lemma TernaryRegroups(cond: Expr, yes: Expr, no: Expr)
    requires !IsTernary(cond)
    ensures Regrouped(Ternary(cond, yes, no), Nothing) ==
            Ternary(Regrouped(cond, Nothing), Regrouped(yes, Nothing), Regrouped(no, Nothing))
  {
    hide RegroupedAt;
    AtPriority(yes, 101);
    AtPriority(no, 101);
    assert Regrouped(cond, Long(yes, no, Nothing)) == Attached(Operand(cond), Long(yes, no, Nothing));
  }

  lemma ElvisRegroups(cond: Expr, no: Expr)
    requires !IsTernary(cond)
    ensures Regrouped(Elvis(cond, no), Nothing) == Elvis(Regrouped(cond, Nothing), Regrouped(no, Nothing))
  {
    hide RegroupedAt;
    AtPriority(no, 101);
    assert Regrouped(cond, Short(no, Nothing)) == Attached(Operand(cond), Short(no, Nothing));
  }

  /** A tree is read as itself exactly when it is straight. */
  lemma {:induction false} RegroupsToItself(e: Expr)
    ensures Regrouped(e, Nothing) == e <==> Straight(e)
    decreases e
  {
    hide RegroupedAt;
    match e
    case Array(elems) => ElemsRegroup(elems);
    case Unary(_, x) => RegroupsToItself(x);
    case Binary(_, a, b) =>
      RegroupsToItself(a);
      RegroupsToItself(b);
    case Coalesce(a, b) =>
      RegroupsToItself(a);
      RegroupsToItself(b);
      AtPriority(b, 110);
    case Ternary(cond, yes, no) =>
      ConditionIsOperand(e, Nothing);
      RegroupsToItself(cond);
      RegroupsToItself(yes);
      RegroupsToItself(no);
      if !IsTernary(cond) {
        TernaryRegroups(cond, yes, no);
      }
    case Elvis(cond, no) =>
      ConditionIsOperand(e, Nothing);
      RegroupsToItself(cond);
      RegroupsToItself(no);
      if !IsTernary(cond) {
        ElvisRegroups(cond, no);
      }
    case _ =>
  }

  lemma {:induction false} ElemsRegroup(elems: seq<Elem>)
    ensures RegroupedElems(elems) == elems <==> forall i :: 0 <= i < |elems| ==> StraightEntry(elems[i])
    decreases elems
  {
    hide RegroupedEntry, StraightEntry;
    if elems != [] {
      EntryRegroups(elems[0]);
      ElemsRegroup(elems[1..]);
      assert elems == [elems[0]] + elems[1..];
    }
  }

  lemma {:induction false} EntryRegroups(el: Elem)
    ensures RegroupedEntry(el) == el <==> StraightEntry(el)
    decreases el
  {
    hide Regrouped, Straight;
    RegroupsToItself(el.value);
    match el.key
    case Some(k) => RegroupsToItself(k);
    case None =>
  }

  lemma WordRegroups(a: Expr, t: After)
    requires a.Atom?
    ensures Regrouped(a, t) == RegroupedAt(a, 101, t) == RegroupedAt(a, 110, t) == Attached(a, t)
    ensures Attached(a, Nothing) == a
  {
  }

  lemma OneStep(cond: Expr, yes: Expr, no: Expr, a: Expr, b: Expr, t: After)
    ensures Regrouped(Ternary(cond, yes, no), t) == Regrouped(cond, Long(yes, no, t))
    ensures Regrouped(Coalesce(a, b), t) == Coalesce(Regrouped(a, Nothing), RegroupedAt(b, 110, t))
    ensures Attached(cond, Long(yes, no, t)) == Ternary(cond, RegroupedAt(yes, 101, Nothing), RegroupedAt(no, 101, t))
  {
  }
}
