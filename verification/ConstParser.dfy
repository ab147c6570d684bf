/** The expression parser of `src/parser.rs`, from `ternary` down, on the tokens that the printer of
    `src/ast_export.rs` writes. A token stands for what the printer pushes at once, so `??` and `?:` are one each. */
module ConstParser {
  import opened Common
  import opened AstExport

  // ---------- the parser ----------

  /** The left binding power of an infix operator; the right one is one more. */
  function BindingPower(op: BinOp): nat
    requires op != Pow
  {
    match op
    case Or => 1
    case And => 3
    case BitOr => 5
    case BitXor => 7
    case BitAnd => 9
    case Lt => 13
    case Gt => 13
    case Le => 13
    case Ge => 13
    case Concat => 17
    case Shl => 19
    case Shr => 19
    case Add => 21
    case Sub => 21
    case Mul => 23
    case Div => 23
    case Mod => 23
    case StrictEq => 11
    case StrictNe => 11
    case LooseEq => 11
    case LooseNe => 11
    case Spaceship => 11
  }

  /** `peek_binop`: the infix operator that `ts` begins with. `**` is none: it is read below the unary ones. */
  function InfixOf(ts: seq<Token>): (op: Option<BinOp>)
    ensures op.Some? ==> ts != [] && op.value != Pow
  {
    if ts == [] || BinaryOf(ts[0]) == Some(Pow) then None else BinaryOf(ts[0])
  }

  function ParseTernary(ts: seq<Token>): (r: Reading<Expr>)
    ensures r.Some? ==> |r.value.1| < |ts| && NonNegative(r.value.0)
    decreases |ts|, 6
  {
    match ParseBinary(0, ts)
    case Some((cond, rest)) => TernaryTail(cond, rest)
    case None => None
  }

  /** The rest of `ternary`, once its first operand is read. */
  function TernaryTail(cond: Expr, ts: seq<Token>): (r: Reading<Expr>)
    ensures r.Some? ==> |r.value.1| <= |ts| && (NonNegative(cond) ==> NonNegative(r.value.0))
    decreases |ts|, 0
  {
    if ts == [] then Some((cond, ts))
    else if ts[0] == QuestionQuestion then
      match ParseTernary(ts[1..])
      case Some((b, rest)) => Some((Coalesce(cond, b), rest))
      case None => None
    else if ts[0] == QuestionColon then
      match ParseTernary(ts[1..])
      case Some((no, rest)) => Some((Elvis(cond, no), rest))
      case None => None
    else if ts[0] == Question then
      match ParseTernary(ts[1..])
      case Some((yes, rest)) =>
        if rest == [] || rest[0] != Colon then None
        else (match ParseTernary(rest[1..])
          case Some((no, rest')) => Some((Ternary(cond, yes, no), rest'))
          case None => None)
      case None => None
    else Some((cond, ts))
  }

  function ParseBinary(min: nat, ts: seq<Token>): (r: Reading<Expr>)
    ensures r.Some? ==> |r.value.1| < |ts| && NonNegative(r.value.0)
    decreases |ts|, 5
  {
    match ParseUnary(ts)
    case Some((lhs, rest)) => BinaryTail(min, lhs, rest)
    case None => None
  }

  /** The loop of `binary`: every operator that binds with `min` or more. */
  function BinaryTail(min: nat, lhs: Expr, ts: seq<Token>): (r: Reading<Expr>)
    ensures r.Some? ==> |r.value.1| <= |ts| && (NonNegative(lhs) ==> NonNegative(r.value.0))
    decreases |ts|, 0
  {
    var op := InfixOf(ts);
    if op.None? || BindingPower(op.value) < min then Some((lhs, ts))
    else
      match ParseBinary(BindingPower(op.value) + 1, ts[1..])
      case Some((rhs, rest)) => BinaryTail(min, Binary(op.value, lhs, rhs), rest)
      case None => None
  }

  function ParseUnary(ts: seq<Token>): (r: Reading<Expr>)
    ensures r.Some? ==> |r.value.1| < |ts| && NonNegative(r.value.0)
    decreases |ts|, 4
  {
    if ts == [] then None
    else if UnaryOf(ts[0]).Some? then
      match ParseUnary(ts[1..])
      case Some((x, rest)) => Some((Unary(UnaryOf(ts[0]).value, x), rest))
      case None => None
    else ParsePower(ts)
  }

  function ParsePower(ts: seq<Token>): (r: Reading<Expr>)
    ensures r.Some? ==> |r.value.1| < |ts| && NonNegative(r.value.0)
    decreases |ts|, 3
  {
    match ParsePrimary(ts)
    case None => None
    case Some((base, rest)) =>
      if rest == [] || rest[0] != Power then Some((base, rest))
      else match ParseUnary(rest[1..])
        case Some((exp, rest')) => Some((Binary(Pow, base, exp), rest'))
        case None => None
  }

  /** An operand. One that an index follows is no expression of the printer's. */
  function ParsePrimary(ts: seq<Token>): (r: Reading<Expr>)
    ensures r.Some? ==> |r.value.1| < |ts| && NonNegative(r.value.0)
    decreases |ts|, 2
  {
    if ts == [] then None
    else if ts[0].Number? then Some((Int(ts[0].n), ts[1..]))
    else if ts[0].Word? then Unindexed(Atom(ts[0].word), ts[1..])
    else if ts[0] == Open then
      match ParseTernary(ts[1..])
      case Some((e, rest)) => if rest != [] && rest[0] == Close then Unindexed(e, rest[1..]) else None
      case None => None
    else if ts[0] == OpenBracket then
      match ParseElems(ts[1..])
      case Some((elems, rest)) => Unindexed(Array(elems), rest)
      case None => None
    else None
  }

  function Unindexed(e: Expr, rest: seq<Token>): Reading<Expr> {
    if rest != [] && rest[0] == OpenBracket then None else Some((e, rest))
  }

  /** `array_literal`, past its bracket. A skipped element, which only a destructuring has, is refused. */
  function ParseElems(ts: seq<Token>): (r: Reading<seq<Elem>>)
    ensures r.Some? ==> |r.value.1| < |ts| && forall i :: 0 <= i < |r.value.0| ==> NonNegativeEntry(r.value.0[i])
    decreases |ts|, 8
  {
    if ts == [] || ts[0] == Comma then None
    else if ts[0] == CloseBracket then Some(([], ts[1..]))
    else match ParseEntry(ts)
      case None => None
      case Some((el, rest)) =>
        if rest == [] then None
        else if rest[0] == CloseBracket then Some(([el], rest[1..]))
        else if rest[0] != Comma then None
        else (match ParseElems(rest[1..])
          case Some((more, rest')) => Some(([el] + more, rest'))
          case None => None)
  }

  function ParseEntry(ts: seq<Token>): (r: Reading<Elem>)
    ensures r.Some? ==> |r.value.1| < |ts| && NonNegativeEntry(r.value.0)
    decreases |ts|, 7
  {
    var byRef := IsReference(ts);
    match ParseTernary(if byRef then ts[1..] else ts)
    case None => None
    case Some((first, rest)) =>
      if byRef || rest == [] || rest[0] != Arrow then Some((Elem(None, byRef, first), rest))
      else
        var valueByRef := IsReference(rest[1..]);
        match ParseTernary(if valueByRef then rest[2..] else rest[1..])
        case Some((value, rest')) => Some((Elem(Some(first), valueByRef, value), rest'))
        case None => None
  }

  predicate IsReference(ts: seq<Token>) {
    ts != [] && ts[0] == Ampersand
  }
}
