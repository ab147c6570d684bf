/** The parser of `src/parser.rs` reads a printed default as the tree it regroups to. */
module ReadBack {
  import opened Common
  import opened AstExport
  import opened ConstParser
  import opened Regrouping

  function AfterTokens(t: After): seq<Token> {
    match t
    case Nothing => []
    case Short(no, next) => [QuestionColon] + Tokens(no, 101) + AfterTokens(next)
    case Long(yes, no, next) => [Question] + Tokens(yes, 101) + [Colon] + Tokens(no, 101) + AfterTokens(next)
  }

  predicate AllNonNegative(t: After) {
    match t
    case Nothing => true
    case Short(no, next) => NonNegative(no) && AllNonNegative(next)
    case Long(yes, no, next) => NonNegative(yes) && NonNegative(no) && AllNonNegative(next)
  }

  /** What follows ends an expression. */
  predicate Ends(rest: seq<Token>) {
    rest == [] || rest[0] in {Close, CloseBracket, Comma, Colon, Arrow}
  }

  /** What follows does not reach into an operand. */
  predicate Clears(rest: seq<Token>) {
    rest == [] || (rest[0] != Power && rest[0] != OpenBracket)
  }

  predicate NotIndexed(rest: seq<Token>) {
    rest == [] || rest[0] != OpenBracket
  }

  function InfixPower(rest: seq<Token>): int {
    if InfixOf(rest).Some? then BindingPower(InfixOf(rest).value) else -1
  }

  /** Printed at this priority, `e` is an operand of the unary level. */
  predicate IsTight(e: Expr, priority: nat) {
    LeafLike(e) || priority > Priority(e) || e.Unary? || (e.Binary? && e.op == Pow)
  }

  function Parens(e: Expr, priority: nat): nat {
    if priority > Priority(e) && !LeafLike(e) then 1 else 0
  }

  lemma EndsClears(t: After, rest: seq<Token>)
    requires Ends(rest)
    ensures Clears(AfterTokens(t) + rest) && InfixPower(AfterTokens(t) + rest) == -1
  {
    hide Tokens;
    var ts := AfterTokens(t) + rest;
    assert ts == [] || ts[0] in {Close, CloseBracket, Comma, Colon, Arrow, Question, QuestionColon};
    assert InfixOf(ts).None?;
  }

  lemma ClearsNotIndexed(rest: seq<Token>)
    requires Clears(rest)
    ensures NotIndexed(rest)
  {
  }

  lemma TightAbove(e: Expr, priority: nat)
    ensures priority > 210 ==> IsTight(e, priority)
    ensures priority == 251 ==> LeafLike(e) || priority > Priority(e)
  {
  }

  lemma BareAt(e: Expr, priority: nat)
    ensures priority <= Priority(e) ==> Tokens(e, priority) == Bare(e)
    ensures priority > Priority(e) && !LeafLike(e) ==> Tokens(e, priority) == [Open] + Bare(e) + [Close]
    ensures Tokens(e, 0) == Bare(e)
  {
  }

  // One step of the parser each.

  lemma ParenthesizedPrimary(inner: seq<Token>, e: Expr, rest: seq<Token>)
    requires ParseTernary(inner) == Some((e, [Close] + rest)) && NotIndexed(rest)
    ensures ParsePrimary([Open] + inner) == Some((e, rest))
  {
    assert ([Open] + inner)[1..] == inner && ([Close] + rest)[1..] == rest;
  }

  lemma ArrayPrimary(inner: seq<Token>, elems: seq<Elem>, rest: seq<Token>)
    requires ParseElems(inner) == Some((elems, rest)) && NotIndexed(rest)
    ensures ParsePrimary([OpenBracket] + inner) == Some((Array(elems), rest))
  {
    hide ParseElems, ParseTernary;
    assert ([OpenBracket] + inner)[1..] == inner;
  }

  lemma WordPrimary(e: Expr, rest: seq<Token>)
    requires (e.Int? && e.n >= 0) || e.Atom?
    requires NotIndexed(rest)
    ensures ParsePrimary(Bare(e) + rest) == Some((e, rest))
  {
    assert (Bare(e) + rest)[1..] == rest;
  }

  lemma PrimaryAlone(ts: seq<Token>, e: Expr, rest: seq<Token>)
    requires ParsePrimary(ts) == Some((e, rest)) && Clears(rest)
    ensures ParseUnary(ts) == Some((e, rest))
  {
    hide ParsePrimary, UnaryOf;
    PrimaryStart(ts);
  }

  lemma PrimaryStart(ts: seq<Token>)
    requires ParsePrimary(ts).Some?
    ensures ts != [] && UnaryOf(ts[0]).None?
  {
    hide ParseTernary, ParseElems;
  }

  lemma UnaryStep(op: UnOp, right: seq<Token>, x: Expr, rest: seq<Token>)
    requires ParseUnary(right) == Some((x, rest))
    ensures ParseUnary([UnarySymbol(op)] + right) == Some((Unary(op, x), rest))
  {
    hide ParsePower;
    assert ([UnarySymbol(op)] + right)[1..] == right;
    assert UnaryOf(UnarySymbol(op)) == Some(op);
  }

  lemma PowerStep(ts: seq<Token>, base: Expr, right: seq<Token>, exp: Expr, rest: seq<Token>)
    requires ParsePrimary(ts) == Some((base, [Power] + right)) && ParseUnary(right) == Some((exp, rest))
    ensures ParseUnary(ts) == Some((Binary(Pow, base, exp), rest))
  {
    hide ParsePrimary, UnaryOf;
    PrimaryStart(ts);
    assert ([Power] + right)[1..] == right;
  }

  lemma InfixStep(op: BinOp, right: seq<Token>)
    requires op != Pow
    ensures var ts := [Table(op).symbol] + right;
      InfixOf(ts) == Some(op) && InfixPower(ts) == BindingPower(op) && Clears(ts) && ts[1..] == right
  {
    hide Table, BinaryOf;
    SymbolNamesOperator(op, right);
    SymbolClears(op);
  }

  lemma SymbolClears(op: BinOp)
    ensures Table(op).symbol != OpenBracket
    ensures Table(op).symbol == Power <==> op == Pow
  {
  }

  lemma BinaryStep(min: nat, lhs: Expr, op: BinOp, right: seq<Token>, rhs: Expr, rest: seq<Token>)
    requires op != Pow && min <= BindingPower(op)
    requires ParseBinary(BindingPower(op) + 1, right) == Some((rhs, rest))
    ensures BinaryTail(min, lhs, [Table(op).symbol] + right) == BinaryTail(min, Binary(op, lhs, rhs), rest)
  {
    hide Table, BinaryOf, ParseBinary, BindingPower;
    InfixStep(op, right);
  }

  lemma BinaryStops(min: nat, lhs: Expr, rest: seq<Token>)
    requires InfixPower(rest) < min
    ensures BinaryTail(min, lhs, rest) == Some((lhs, rest))
  {
  }

  lemma TernaryStep(ts: seq<Token>, e: Expr, rest: seq<Token>)
    requires ParseBinary(0, ts) == BinaryTail(0, e, rest) && InfixPower(rest) == -1
    ensures ParseTernary(ts) == TernaryTail(e, rest)
  {
    BinaryStops(0, e, rest);
  }

  lemma CoalesceStep(cond: Expr, right: seq<Token>, b: Expr, rest: seq<Token>)
    requires ParseTernary(right) == Some((b, rest))
    ensures TernaryTail(cond, [QuestionQuestion] + right) == Some((Coalesce(cond, b), rest))
  {
    assert ([QuestionQuestion] + right)[1..] == right;
  }

  lemma ElvisStep(cond: Expr, right: seq<Token>, no: Expr, rest: seq<Token>)
    requires ParseTernary(right) == Some((no, rest))
    ensures TernaryTail(cond, [QuestionColon] + right) == Some((Elvis(cond, no), rest))
  {
    assert ([QuestionColon] + right)[1..] == right;
  }

  lemma QuestionStep(cond: Expr, right: seq<Token>, yes: Expr, last: seq<Token>, no: Expr, rest: seq<Token>)
    requires ParseTernary(right) == Some((yes, [Colon] + last)) && ParseTernary(last) == Some((no, rest))
    ensures TernaryTail(cond, [Question] + right) == Some((Ternary(cond, yes, no), rest))
  {
    assert ([Question] + right)[1..] == right && ([Colon] + last)[1..] == last;
  }

  /** The printer's priorities and the parser's binding powers, operator against operator: they agree but for
      `<=>`, which the parser reads at the level of the equalities. */
  lemma PowersFollowPriorities(op: BinOp, inner: BinOp)
    requires op != Pow && inner != Pow
    ensures op != Spaceship && inner != Spaceship ==>
              (BindingPower(op) < BindingPower(inner) <==> Table(op).p < Table(inner).p)
    ensures op == Spaceship && inner in {StrictEq, StrictNe, LooseEq, LooseNe} ==>
              BindingPower(op) == BindingPower(inner)
    ensures Table(op).pl <= Table(inner).p ==> BindingPower(op) <= BindingPower(inner)
    ensures Table(op).pr <= Table(inner).p ==>
              BindingPower(op) < BindingPower(inner) ||
              (op in {StrictEq, StrictNe, LooseEq, LooseNe} && inner == Spaceship)
    ensures op == Spaceship ==>
              Table(op).pl == 181 == Table(op).pr && (181 <= Table(inner).p ==> BindingPower(inner) > 11)
    ensures 110 < Table(op).p <= Table(op).pl <= 251 && Table(op).p <= Table(op).pr <= 251
  {
  }

  // The induction, from the operands up.

  lemma {:induction false} PrimaryReads(e: Expr, priority: nat, rest: seq<Token>)
    requires NonNegative(e) && priority <= 251 && (LeafLike(e) || priority > Priority(e)) && NotIndexed(rest)
    ensures ParsePrimary(Tokens(e, priority) + rest) == Some((Regrouped(e, Nothing), rest))
    decreases Size(e), Parens(e, priority), 4
  {
    hide ParsePrimary, ParseTernary, ParseElems, NonNegative, Bare, NotIndexed;
    BareAt(e, priority);
    if LeafLike(e) {
      assert Tokens(e, priority) == Bare(e);
      LeafReads(e, rest);
    } else {
      var inner := Bare(e) + ([Close] + rest);
      assert Tokens(e, priority) + rest == [Open] + inner;
      assert inner == Tokens(e, 0) + (AfterTokens(Nothing) + ([Close] + rest));
      TernaryReads(e, 0, Nothing, [Close] + rest);
      ParenthesizedPrimary(inner, Regrouped(e, Nothing), rest);
    }
  }

  lemma {:induction false} LeafReads(e: Expr, rest: seq<Token>)
    requires NonNegative(e) && LeafLike(e) && NotIndexed(rest)
    ensures ParsePrimary(Bare(e) + rest) == Some((Regrouped(e, Nothing), rest))
    decreases Size(e), 0, 0
  {
    hide ParsePrimary, ParseTernary, ParseElems, NotIndexed, RegroupedElems, List;
    if e.Array? {
      var inner := List(e.elems) + ([CloseBracket] + rest);
      assert Bare(e) + rest == [OpenBracket] + inner;
      ElemsRead(e.elems, rest);
      ArrayPrimary(inner, RegroupedElems(e.elems), rest);
    } else {
      WordPrimary(e, rest);
    }
  }

  lemma {:induction false} UnaryReads(e: Expr, priority: nat, rest: seq<Token>)
    requires NonNegative(e) && priority <= 251 && IsTight(e, priority) && Clears(rest)
    ensures ParseUnary(Tokens(e, priority) + rest) == Some((Regrouped(e, Nothing), rest))
    decreases Size(e), Parens(e, priority), 5
  {
    hide ParsePrimary, ParseUnary, Clears, Regrouped, Bare;
    BareAt(e, priority);
    if LeafLike(e) || priority > Priority(e) {
      assert NotIndexed(rest) by { ClearsNotIndexed(rest); }
      PrimaryReads(e, priority, rest);
      PrimaryAlone(Tokens(e, priority) + rest, Regrouped(e, Nothing), rest);
    } else if e.Unary? {
      UnaryOperatorReads(e, rest);
    } else {
      PowerReads(e, rest);
    }
  }

  lemma {:induction false} UnaryOperatorReads(e: Expr, rest: seq<Token>)
    requires NonNegative(e) && e.Unary? && Clears(rest)
    ensures ParseUnary(Bare(e) + rest) == Some((Regrouped(e, Nothing), rest))
    decreases Size(e), 0, 0
  {
    hide ParsePrimary, ParseUnary, Clears, Tokens;
    var right := Tokens(e.x, 241) + rest;
    assert Bare(e) + rest == [UnarySymbol(e.uop)] + right;
    TightAbove(e.x, 241);
    UnaryReads(e.x, 241, rest);
    UnaryStep(e.uop, right, Regrouped(e.x, Nothing), rest);
  }

  lemma {:induction false} PowerReads(e: Expr, rest: seq<Token>)
    requires NonNegative(e) && e.Binary? && e.op == Pow && Clears(rest)
    ensures ParseUnary(Bare(e) + rest) == Some((Regrouped(e, Nothing), rest))
    decreases Size(e), 0, 0
  {
    hide ParsePrimary, ParseUnary, Tokens;
    var right := Tokens(e.b, 250) + rest;
    assert Bare(e) + rest == Tokens(e.a, 251) + ([Power] + right);
    TightAbove(e.a, 251);
    TightAbove(e.b, 250);
    UnaryReads(e.b, 250, rest);
    PrimaryReads(e.a, 251, [Power] + right);
    PowerStep(Bare(e) + rest, Regrouped(e.a, Nothing), right, Regrouped(e.b, Nothing), rest);
  }

  /** At a priority above `??`, what is printed is an operand of the binary loop. */
  lemma {:induction false} BinaryReads(e: Expr, priority: nat, min: nat, rest: seq<Token>)
    requires NonNegative(e) && 110 < priority <= 251 && Clears(rest)
    requires IsTight(e, priority) ||
             (e.Binary? && min <= BindingPower(e.op) && InfixPower(rest) <= BindingPower(e.op))
    ensures ParseBinary(min, Tokens(e, priority) + rest) == BinaryTail(min, Regrouped(e, Nothing), rest)
    decreases Size(e), Parens(e, priority), 6
  {
    hide ParseUnary, BinaryTail, Clears, Regrouped, Bare, BindingPower, InfixPower;
    if IsTight(e, priority) {
      UnaryReads(e, priority, rest);
    } else {
      BareAt(e, priority);
      if IsSpaceshipEquality(e) {
        EqualityReads(e, min, rest);
      } else {
        OperatorReads(e, min, rest);
      }
    }
  }

  /** An operand at the priority that its operator gives it, and with what the operator's side puts after it. */
  lemma {:induction false} LeftReads(op: BinOp, a: Expr, min: nat, right: seq<Token>)
    requires NonNegative(a) && op != Pow && min <= BindingPower(op)
    ensures ParseBinary(min, Tokens(a, Table(op).pl) + ([Table(op).symbol] + right)) ==
            BinaryTail(min, Regrouped(a, Nothing), [Table(op).symbol] + right)
    decreases Size(a), 2, 0
  {
    hide ParseBinary, BinaryTail, Regrouped, BindingPower, InfixPower, Table, Clears;
    InfixStep(op, right);
    PowersFollowPriorities(op, if a.Binary? && a.op != Pow then a.op else op);
    BinaryReads(a, Table(op).pl, min, [Table(op).symbol] + right);
  }

  lemma {:induction false} RightReads(op: BinOp, b: Expr, rest: seq<Token>)
    requires NonNegative(b) && op != Pow && Clears(rest) && InfixPower(rest) <= BindingPower(op)
    requires !(op in {StrictEq, StrictNe, LooseEq, LooseNe} && b.Binary? && b.op == Spaceship)
    ensures ParseBinary(BindingPower(op) + 1, Tokens(b, Table(op).pr) + rest) == Some((Regrouped(b, Nothing), rest))
    decreases Size(b), 2, 0
  {
    hide ParseBinary, BinaryTail, Regrouped, BindingPower, InfixPower, Table, Clears;
    PowersFollowPriorities(op, if b.Binary? && b.op != Pow then b.op else op);
    BinaryReads(b, Table(op).pr, BindingPower(op) + 1, rest);
    BinaryStops(BindingPower(op) + 1, Regrouped(b, Nothing), rest);
  }

  lemma {:induction false} OperatorReads(e: Expr, min: nat, rest: seq<Token>)
    requires NonNegative(e) && e.Binary? && e.op != Pow && !IsSpaceshipEquality(e) && Clears(rest)
    requires min <= BindingPower(e.op) && InfixPower(rest) <= BindingPower(e.op)
    ensures ParseBinary(min, Bare(e) + rest) == BinaryTail(min, Regrouped(e, Nothing), rest)
    decreases Size(e), 0, 0
  {
    hide ParseBinary, BinaryTail, Tokens, BindingPower, InfixPower, Table, Clears;
    var row, right := Table(e.op), Tokens(e.b, Table(e.op).pr) + rest;
    assert Bare(e) + rest == Tokens(e.a, row.pl) + ([row.symbol] + right);
    LeftReads(e.op, e.a, min, right);
    RightReads(e.op, e.b, rest);
    BinaryStep(min, Regrouped(e.a, Nothing), e.op, right, Regrouped(e.b, Nothing), rest);
  }

  /** `c === x <=> y`: the equality takes only `x`, and the `<=>` takes the equality. */
  lemma {:induction false} EqualityReads(e: Expr, min: nat, rest: seq<Token>)
    requires NonNegative(e) && IsSpaceshipEquality(e) && Clears(rest)
    requires min <= BindingPower(e.op) && InfixPower(rest) <= BindingPower(e.op)
    ensures ParseBinary(min, Bare(e) + rest) == BinaryTail(min, Regrouped(e, Nothing), rest)
    decreases Size(e), 0, 0
  {
    hide ParseBinary, BinaryTail, Tokens, InfixPower, Clears;
    var op, a, x, y := e.op, e.a, e.b.a, e.b.b;
    var last := Tokens(y, 181) + rest;
    var right := Tokens(x, 181) + ([ThreeWay] + last);
    assert Size(e.b) == 2 + Size(x) + Size(y);
    SpaceshipTokens(e, right, last, rest);
    LeftReads(op, a, min, right);
    InfixStep(Spaceship, last);
    ComparedReads(x, last);
    RightReads(Spaceship, y, rest);
    var lhs := Binary(op, Regrouped(a, Nothing), Regrouped(x, Nothing));
    BinaryStep(min, Regrouped(a, Nothing), op, right, Regrouped(x, Nothing), [ThreeWay] + last);
    BinaryStep(min, lhs, Spaceship, last, Regrouped(y, Nothing), rest);
  }

  lemma {:induction false} ComparedReads(x: Expr, last: seq<Token>)
    requires NonNegative(x)
    ensures ParseBinary(12, Tokens(x, 181) + ([ThreeWay] + last)) == Some((Regrouped(x, Nothing), [ThreeWay] + last))
    decreases Size(x), 2, 0
  {
    hide ParseBinary, BinaryTail, Regrouped, Clears;
    InfixStep(Spaceship, last);
    PowersFollowPriorities(Spaceship, if x.Binary? && x.op != Pow then x.op else Spaceship);
    BinaryReads(x, 181, 12, [ThreeWay] + last);
    BinaryStops(12, Regrouped(x, Nothing), [ThreeWay] + last);
  }

  lemma SpaceshipTokens(e: Expr, right: seq<Token>, last: seq<Token>, rest: seq<Token>)
    requires IsSpaceshipEquality(e) && last == Tokens(e.b.b, 181) + rest
    requires right == Tokens(e.b.a, 181) + ([ThreeWay] + last)
    ensures Bare(e) + rest == Tokens(e.a, Table(e.op).pl) + ([Table(e.op).symbol] + right)
  {
    hide Tokens;
    BareAt(e.b, 171);
    assert Bare(e.b) == Tokens(e.b.a, 181) + [ThreeWay] + Tokens(e.b.b, 181);
    assert Tokens(e.b, Table(e.op).pr) + rest == right;
  }

  /** Whatever was printed is read as the tree it regroups to with what follows. */
  lemma {:induction false} TernaryReads(e: Expr, priority: nat, t: After, rest: seq<Token>)
    requires NonNegative(e) && AllNonNegative(t) && priority <= 110 && Ends(rest)
    ensures ParseTernary(Tokens(e, priority) + (AfterTokens(t) + rest)) == Some((RegroupedAt(e, priority, t), rest))
    decreases Size(e) + SizeAfter(t), Parens(e, priority), 9
  {
    hide ParseTernary, Regrouped, Bare, Attached, Tokens, AfterTokens, TernaryTail, NonNegative, AllNonNegative, Ends;
    BareAt(e, priority);
    if IsTernary(e) && priority <= Priority(e) {
      if e.Coalesce? {
        CoalesceReads(e, t, rest);
      } else {
        ConditionReads(e, t, rest);
      }
    } else {
      OperandAt(e, priority, t);
      EndsClears(t, rest);
      FirstReads(e, AfterTokens(t) + rest);
      TailReads(Regrouped(e, Nothing), t, rest);
    }
  }

  lemma {:induction false} TailReads(cond: Expr, t: After, rest: seq<Token>)
    requires AllNonNegative(t) && Ends(rest)
    ensures TernaryTail(cond, AfterTokens(t) + rest) == Some((Attached(cond, t), rest))
    decreases SizeAfter(t), 0, 8
  {
    hide ParseTernary, RegroupedAt, Tokens, NonNegative;
    match t
    case Nothing =>
      assert AfterTokens(t) + rest == rest;
    case Short(_, _) => ShortReads(cond, t, rest);
    case Long(_, _, _) => LongReads(cond, t, rest);
  }

  lemma {:induction false} ShortReads(cond: Expr, t: After, rest: seq<Token>)
    requires t.Short? && AllNonNegative(t) && Ends(rest)
    ensures TernaryTail(cond, AfterTokens(t) + rest) == Some((Attached(cond, t), rest))
    decreases SizeAfter(t), 0, 7
  {
    hide ParseTernary, TernaryTail, RegroupedAt, Tokens, NonNegative, Ends;
    var right := Tokens(t.no, 101) + (AfterTokens(t.next) + rest);
    assert AfterTokens(t) + rest == [QuestionColon] + right;
    TernaryReads(t.no, 101, t.next, rest);
    ElvisStep(cond, right, RegroupedAt(t.no, 101, t.next), rest);
  }

  lemma {:induction false} LongReads(cond: Expr, t: After, rest: seq<Token>)
    requires t.Long? && AllNonNegative(t) && Ends(rest)
    ensures TernaryTail(cond, AfterTokens(t) + rest) == Some((Attached(cond, t), rest))
    decreases SizeAfter(t), 0, 7
  {
    hide ParseTernary, TernaryTail, RegroupedAt, Tokens, NonNegative;
    var last := Tokens(t.no, 101) + (AfterTokens(t.next) + rest);
    var right := Tokens(t.yes, 101) + (AfterTokens(Nothing) + ([Colon] + last));
    assert AfterTokens(t) + rest == [Question] + right;
    TernaryReads(t.yes, 101, Nothing, [Colon] + last);
    TernaryReads(t.no, 101, t.next, rest);
    QuestionStep(cond, right, RegroupedAt(t.yes, 101, Nothing), last, RegroupedAt(t.no, 101, t.next), rest);
  }

  lemma OperandAt(e: Expr, priority: nat, t: After)
    requires priority <= 110 && (IsTernary(e) ==> priority > Priority(e))
    ensures Tokens(e, priority) == Tokens(e, 111)
    ensures RegroupedAt(e, priority, t) == Attached(Regrouped(e, Nothing), t)
  {
  }

  /** A first operand, which the binary loop reads whole. */
  lemma {:induction false} FirstReads(e: Expr, rest: seq<Token>)
    requires NonNegative(e) && Clears(rest) && InfixPower(rest) == -1
    ensures ParseTernary(Tokens(e, 111) + rest) == TernaryTail(Regrouped(e, Nothing), rest)
    decreases Size(e), Parens(e, 111), 7
  {
    hide ParseTernary, TernaryTail, Tokens, Regrouped, Clears, InfixPower, BindingPower;
    BinaryReads(e, 111, 0, rest);
    TernaryStep(Tokens(e, 111) + rest, Regrouped(e, Nothing), rest);
  }

  lemma {:induction false} CoalesceReads(e: Expr, t: After, rest: seq<Token>)
    requires NonNegative(e) && e.Coalesce? && AllNonNegative(t) && Ends(rest)
    ensures ParseTernary(Bare(e) + (AfterTokens(t) + rest)) == Some((Regrouped(e, t), rest))
    decreases Size(e) + SizeAfter(t), 0, 0
  {
    hide ParseTernary, TernaryTail, Tokens, RegroupedAt, ParseBinary, BinaryTail;
    var right := Tokens(e.b, 110) + (AfterTokens(t) + rest);
    assert Bare(e) + (AfterTokens(t) + rest) == Tokens(e.a, 111) + ([QuestionQuestion] + right);
    FirstReads(e.a, [QuestionQuestion] + right);
    TernaryReads(e.b, 110, t, rest);
    CoalesceStep(Regrouped(e.a, Nothing), right, RegroupedAt(e.b, 110, t), rest);
  }

  lemma {:induction false} ConditionReads(e: Expr, t: After, rest: seq<Token>)
    requires NonNegative(e) && (e.Ternary? || e.Elvis?) && AllNonNegative(t) && Ends(rest)
    ensures ParseTernary(Bare(e) + (AfterTokens(t) + rest)) == Some((Regrouped(e, t), rest))
    decreases Size(e) + SizeAfter(t), 0, 0
  {
    hide ParseTernary, Tokens, Ends;
    var next := if e.Ternary? then Long(e.yes, e.no, t) else Short(e.no, t);
    assert Bare(e) + (AfterTokens(t) + rest) == Tokens(e.cond, 100) + (AfterTokens(next) + rest);
    TernaryReads(e.cond, 100, next, rest);
  }

  // ---------- arrays ----------

  lemma ElemsOfNone(rest: seq<Token>)
    ensures List([]) == [] && ParseElems([CloseBracket] + rest) == Some(([], rest))
  {
    assert ([CloseBracket] + rest)[1..] == rest;
  }

  lemma ElemsStep(ts: seq<Token>, el: Elem, more: seq<Token>, elems: seq<Elem>, rest: seq<Token>)
    requires ts != [] && ts[0] !in {Comma, CloseBracket}
    requires ParseEntry(ts) == Some((el, [Comma] + more)) && ParseElems(more) == Some((elems, rest))
    ensures ParseElems(ts) == Some(([el] + elems, rest))
  {
    hide ParseEntry;
    assert ([Comma] + more)[1..] == more;
  }

  lemma LastElem(ts: seq<Token>, el: Elem, rest: seq<Token>)
    requires ts != [] && ts[0] !in {Comma, CloseBracket} && ParseEntry(ts) == Some((el, [CloseBracket] + rest))
    ensures ParseElems(ts) == Some(([el], rest))
  {
    assert ([CloseBracket] + rest)[1..] == rest;
  }

  lemma {:induction false} ElemsRead(elems: seq<Elem>, rest: seq<Token>)
    requires forall i :: 0 <= i < |elems| ==> NonNegativeEntry(elems[i])
    ensures ParseElems(List(elems) + ([CloseBracket] + rest)) == Some((RegroupedElems(elems), rest))
    decreases SizeOfAll(elems), 2, 3
  {
    hide ParseElems, ParseEntry, Entry, NonNegativeEntry, RegroupedEntry, SizeOfEntry;
    var end := [CloseBracket] + rest;
    if elems == [] {
      ElemsOfNone(rest);
      assert List(elems) + end == end;
    } else {
      var el, others := elems[0], elems[1..];
      EntryStart(el);
      assert SizeOfAll(elems) == SizeOfEntry(el) + SizeOfAll(others);
      if |elems| == 1 {
        assert List(elems) + end == Entry(el) + end;
        EntryReads(el, end);
        LastElem(List(elems) + end, RegroupedEntry(el), rest);
        assert RegroupedElems(elems) == [RegroupedEntry(el)] + RegroupedElems(others) == [RegroupedEntry(el)];
      } else {
        var more := List(others) + end;
        assert List(elems) + end == Entry(el) + ([Comma] + more);
        EntryReads(el, [Comma] + more);
        ElemsRead(others, rest);
        ElemsStep(List(elems) + end, RegroupedEntry(el), more, RegroupedElems(others), rest);
      }
    }
  }

  /** No expression is printed starting with a comma or a closing bracket, and none with `&`. */
  lemma {:induction false} ExprStart(e: Expr, priority: nat)
    ensures Tokens(e, priority) != [] && Tokens(e, priority)[0] !in {Comma, CloseBracket, Ampersand}
    decreases e
  {
    match e
    case Binary(op, a, _) => ExprStart(a, Table(op).pl);
    case Coalesce(a, _) => ExprStart(a, 111);
    case Ternary(cond, _, _) => ExprStart(cond, 100);
    case Elvis(cond, _) => ExprStart(cond, 100);
    case _ =>
  }

  lemma EntryStart(el: Elem)
    ensures Entry(el) != [] && Entry(el)[0] !in {Comma, CloseBracket}
  {
    hide Tokens;
    ExprStart(el.value, 80);
    if el.key.Some? {
      ExprStart(el.key.value, 80);
    }
  }

  lemma {:induction false} EntryReads(el: Elem, rest: seq<Token>)
    requires NonNegativeEntry(el) && rest != [] && rest[0] in {Comma, CloseBracket}
    ensures ParseEntry(Entry(el) + rest) == Some((RegroupedEntry(el), rest))
    decreases SizeOfEntry(el), 2, 2
  {
    hide ParseTernary, Tokens, NonNegative, Regrouped, ParseEntry;
    var plain := Tokens(el.value, 80) + rest;
    var value := (if el.byRef then [Ampersand] else []) + plain;
    ExprStart(el.value, 80);
    ValueReads(el.value, rest);
    match el.key
    case None =>
      assert Entry(el) + rest == value;
      PlainEntry(value, el.byRef, plain, Regrouped(el.value, Nothing), rest);
    case Some(k) =>
      ExprStart(k, 80);
      assert Entry(el) + rest == Tokens(k, 80) + ([Arrow] + value);
      ValueReads(k, [Arrow] + value);
      KeyedEntry(Entry(el) + rest, Regrouped(k, Nothing), el.byRef, plain, Regrouped(el.value, Nothing), rest);
  }

  lemma {:induction false} ValueReads(e: Expr, rest: seq<Token>)
    requires NonNegative(e) && Ends(rest)
    ensures ParseTernary(Tokens(e, 80) + rest) == Some((Regrouped(e, Nothing), rest))
    decreases Size(e), 2, 1
  {
    hide ParseTernary, Tokens, NonNegative, Regrouped;
    assert AfterTokens(Nothing) + rest == rest;
    TernaryReads(e, 80, Nothing, rest);
    AtNoPriority(e);
  }

  lemma AtNoPriority(e: Expr)
    ensures RegroupedAt(e, 80, Nothing) == Regrouped(e, Nothing) == RegroupedAt(e, 0, Nothing)
  {
  }

  lemma PlainEntry(ts: seq<Token>, byRef: bool, plain: seq<Token>, e: Expr, rest: seq<Token>)
    requires ts == (if byRef then [Ampersand] else []) + plain && plain != [] && plain[0] != Ampersand
    requires ParseTernary(plain) == Some((e, rest)) && rest != [] && rest[0] != Arrow
    ensures ParseEntry(ts) == Some((Elem(None, byRef, e), rest))
  {
    hide ParseTernary;
    assert if byRef then ts[1..] == plain else ts == plain;
  }

  lemma KeyedEntry(ts: seq<Token>, k: Expr, byRef: bool, plain: seq<Token>, e: Expr, rest: seq<Token>)
    requires ts != [] && ts[0] != Ampersand && plain != [] && plain[0] != Ampersand
    requires ParseTernary(ts) == Some((k, [Arrow] + ((if byRef then [Ampersand] else []) + plain)))
    requires ParseTernary(plain) == Some((e, rest))
    ensures ParseEntry(ts) == Some((Elem(Some(k), byRef, e), rest))
  {
    hide ParseTernary;
    var value := (if byRef then [Ampersand] else []) + plain;
    var after := [Arrow] + value;
    assert after[1..] == value;
    assert byRef ==> after[2..] == plain;
    assert !byRef ==> value == plain;
  }

  // ---------- what is read back ----------

  /** What the parser makes of a printed default, for every default. */
  lemma PrintedIsRegrouped(e: Expr)
    requires NonNegative(e)
    ensures ParseTernary(Tokens(e, 0)) == Some((Regrouped(e, Nothing), []))
  {
    hide ParseTernary, Tokens, NonNegative, Regrouped;
    assert Tokens(e, 0) + (AfterTokens(Nothing) + []) == Tokens(e, 0);
    TernaryReads(e, 0, Nothing, []);
    AtNoPriority(e);
  }

  /**
    The parser reads a printed default back as the expression it was printed from exactly when no literal in it is
    negative, which the parser makes none of, no ternary, elvis or `??` is printed as a condition, and no `<=>` to
    the right of an equality.
  */
  lemma ParserReadsBack(e: Expr)
    ensures ParseTernary(Tokens(e, 0)) == Some((e, [])) <==> NonNegative(e) && Straight(e)
  {
    hide ParseTernary, Tokens, NonNegative, Regrouped;
    if NonNegative(e) {
      PrintedIsRegrouped(e);
      RegroupsToItself(e);
    }
  }

  /** `a ? b : c ? d : e`, which was printed from `(a ? b : c) ? d : e`. */
  lemma NestedTernary(a: Expr, b: Expr, c: Expr, d: Expr, e: Expr)
    requires a.Atom? && b.Atom? && c.Atom? && d.Atom? && e.Atom?
    ensures ParseTernary(Tokens(Ternary(Ternary(a, b, c), d, e), 0)) == Some((Ternary(a, b, Ternary(c, d, e)), []))
  {
    hide ParseTernary, Tokens, Regrouped, RegroupedAt, Attached, Operand;
    var inner := Long(d, e, Nothing);
    assert NonNegative(Ternary(a, b, c));
    PrintedIsRegrouped(Ternary(Ternary(a, b, c), d, e));
    OneStep(Ternary(a, b, c), d, e, a, b, Nothing);
    OneStep(a, b, c, a, b, inner);
    OneStep(c, d, e, a, b, Nothing);
    WordRegroups(a, Long(b, c, inner));
    WordRegroups(b, Nothing);
    WordRegroups(c, inner);
    WordRegroups(d, Nothing);
    WordRegroups(e, Nothing);
  }

  /** `a ?? b ? c : d`, which was printed from `(a ?? b) ? c : d`. */
  lemma CoalesceCondition(a: Expr, b: Expr, c: Expr, d: Expr)
    requires a.Atom? && b.Atom? && c.Atom? && d.Atom?
    ensures ParseTernary(Tokens(Ternary(Coalesce(a, b), c, d), 0)) == Some((Coalesce(a, Ternary(b, c, d)), []))
  {
    hide ParseTernary, Tokens, Regrouped, RegroupedAt, Attached, Operand;
    assert NonNegative(Coalesce(a, b));
    PrintedIsRegrouped(Ternary(Coalesce(a, b), c, d));
    OneStep(Coalesce(a, b), c, d, a, b, Nothing);
    OneStep(b, c, d, a, b, Long(c, d, Nothing));
    OneStep(b, c, d, a, b, Nothing);
    WordRegroups(a, Nothing);
    WordRegroups(b, Long(c, d, Nothing));
    WordRegroups(c, Nothing);
    WordRegroups(d, Nothing);
  }

  /** `a === b <=> c`, which was printed from `a === (b <=> c)`. */
  lemma SpaceshipOperand(a: Expr, b: Expr, c: Expr)
    requires a.Atom? && b.Atom? && c.Atom?
    ensures ParseTernary(Tokens(Binary(StrictEq, a, Binary(Spaceship, b, c)), 0)) ==
            Some((Binary(Spaceship, Binary(StrictEq, a, b), c), []))
  {
    hide ParseTernary, Tokens, RegroupedAt;
    assert NonNegative(Binary(Spaceship, b, c));
    PrintedIsRegrouped(Binary(StrictEq, a, Binary(Spaceship, b, c)));
    WordRegroups(a, Nothing);
    WordRegroups(b, Nothing);
    WordRegroups(c, Nothing);
  }
}
