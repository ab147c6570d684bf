/** The constant-expression printer of `src/ast_export.rs`, and a reader that takes its output back. */
module AstExport {
  import opened Common

  datatype BinOp =
    | Add | Sub | Mul | Div | Mod | Pow | Concat | Shl | Shr | BitOr | BitAnd | BitXor
    | StrictEq | StrictNe | LooseEq | LooseNe | Lt | Le | Gt | Ge | Spaceship | And | Or
  datatype UnOp = Neg | Pos | Not | BitNot

  /** The expressions a default can hold. An `Atom` is any operand that is printed as one word. */
  datatype Expr =
    | Int(n: int)
    | Atom(word: string)
    | Array(elems: seq<Elem>)
    | Unary(uop: UnOp, x: Expr)
    | Binary(op: BinOp, a: Expr, b: Expr)
    | Coalesce(a: Expr, b: Expr)
    | Ternary(cond: Expr, yes: Expr, no: Expr)
    | Elvis(cond: Expr, no: Expr)

  datatype Elem = Elem(key: Option<Expr>, byRef: bool, value: Expr)

  datatype Token =
    | Number(n: nat) | Word(word: string)
    | Plus | Minus | Times | Divide | Percent | Power | Dot | ShiftLeft | ShiftRight | Pipe | Ampersand | Caret
    | Identical | NotIdentical | Equal | NotEqual | Less | LessEqual | Greater | GreaterEqual | ThreeWay | AndAnd | OrOr
    | Bang | Tilde | QuestionQuestion | Question | Colon | QuestionColon
    | Open | Close | OpenBracket | CloseBracket | Comma | Arrow

  /** A row of the table: the symbol, the operator's priority, and the ones its operands are printed at. */
  datatype Infix = Infix(symbol: Token, p: nat, pl: nat, pr: nat)

  function Table(op: BinOp): Infix {
    match op
    case Add => Infix(Plus, 200, 200, 201)
    case Sub => Infix(Minus, 200, 200, 201)
    case Mul => Infix(Times, 210, 210, 211)
    case Div => Infix(Divide, 210, 210, 211)
    case Mod => Infix(Percent, 210, 210, 211)
    case Pow => Infix(Power, 250, 251, 250)
    case Concat => Infix(Dot, 185, 185, 186)
    case Shl => Infix(ShiftLeft, 190, 190, 191)
    case Shr => Infix(ShiftRight, 190, 190, 191)
    case BitOr => Infix(Pipe, 140, 140, 141)
    case BitAnd => Infix(Ampersand, 160, 160, 161)
    case BitXor => Infix(Caret, 150, 150, 151)
    case StrictEq => Infix(Identical, 170, 171, 171)
    case StrictNe => Infix(NotIdentical, 170, 171, 171)
    case LooseEq => Infix(Equal, 170, 171, 171)
    case LooseNe => Infix(NotEqual, 170, 171, 171)
    case Lt => Infix(Less, 180, 181, 181)
    case Le => Infix(LessEqual, 180, 181, 181)
    case Gt => Infix(Greater, 180, 181, 181)
    case Ge => Infix(GreaterEqual, 180, 181, 181)
    case Spaceship => Infix(ThreeWay, 180, 181, 181)
    case And => Infix(AndAnd, 130, 130, 131)
    case Or => Infix(OrOr, 120, 120, 121)
  }

  function UnarySymbol(op: UnOp): Token {
    match op
    case Neg => Minus
    case Pos => Plus
    case Not => Bang
    case BitNot => Tilde
  }

  // ---------- the printer ----------

  /** The priority below which an expression is printed in parentheses; operands never are. */
  function Priority(e: Expr): nat {
    match e
    case Unary(_, _) => 240
    case Binary(op, _, _) => Table(op).p
    case Coalesce(_, _) => 110
    case Ternary(_, _, _) => 100
    case Elvis(_, _) => 100
    case _ => 1000
  }

  function Parenthesized(ts: seq<Token>, parens: bool): seq<Token> {
    if parens then [Open] + ts + [Close] else ts
  }

  /** What `export` pushes for `e` where the surrounding operator needs priority `priority`. */
  function Tokens(e: Expr, priority: nat): seq<Token>
    decreases e, 1
  {
    Parenthesized(Bare(e), !LeafLike(e) && priority > Priority(e))
  }

  predicate LeafLike(e: Expr) {
    e.Int? || e.Atom? || e.Array?
  }

  function Bare(e: Expr): seq<Token>
    decreases e, 0
  {
    match e
    case Int(n) => if n >= 0 then [Number(n)] else [Minus, Number(-n)]
    case Atom(word) => [Word(word)]
    case Array(elems) => [OpenBracket] + List(elems) + [CloseBracket]
    case Unary(op, x) => [UnarySymbol(op)] + Tokens(x, 241)
    case Binary(op, a, b) => Tokens(a, Table(op).pl) + [Table(op).symbol] + Tokens(b, Table(op).pr)
    case Coalesce(a, b) => Tokens(a, 111) + [QuestionQuestion] + Tokens(b, 110)
    case Ternary(cond, yes, no) => Tokens(cond, 100) + [Question] + Tokens(yes, 101) + [Colon] + Tokens(no, 101)
    case Elvis(cond, no) => Tokens(cond, 100) + [QuestionColon] + Tokens(no, 101)
  }

  function List(elems: seq<Elem>): seq<Token>
    decreases elems, 0
  {
    if elems == [] then []
    else Entry(elems[0]) + (if |elems| == 1 then [] else [Comma] + List(elems[1..]))
  }

  function Entry(el: Elem): seq<Token>
    decreases el, 0
  {
    (match el.key case Some(k) => Tokens(k, 80) + [Arrow] case None => []) +
    (if el.byRef then [Ampersand] else []) + Tokens(el.value, 80)
  }

  class Sink {
    var out: seq<Token>

    constructor ()
      ensures out == []
    {
      out := [];
    }

    method Push(t: Token)
      modifies this
      ensures out == old(out) + [t]
    {
      out := out + [t];
    }

    /** `export`: the expression, in the parentheses of `wrap` where its operator binds looser. */
    method Export(e: Expr, priority: nat)
      modifies this
      ensures out == old(out) + Tokens(e, priority)
      decreases e, 2
    {
      var parens := !LeafLike(e) && priority > Priority(e);
      if parens {
        Push(Open);
      }
      ExportBare(e);
      if parens {
        Push(Close);
      }
    }

    method ExportBare(e: Expr)
      modifies this
      ensures out == old(out) + Bare(e)
      decreases e, 1
    {
      hide Tokens, List, Table;
      match e {
        case Int(n) =>
          if n < 0 {
            Push(Minus);
          }
          Push(Number(if n < 0 then -n else n));
        case Atom(word) =>
          Push(Word(word));
        case Array(elems) =>
          Push(OpenBracket);
          ExportElems(elems);
          Push(CloseBracket);
        case Unary(op, x) =>
          Push(UnarySymbol(op));
          Export(x, 241);
        case Binary(op, a, b) =>
          ExportInfix(e, a, Table(op).pl, Table(op).symbol, b, Table(op).pr);
        case Coalesce(a, b) =>
          ExportInfix(e, a, 111, QuestionQuestion, b, 110);
        case Ternary(cond, yes, no) =>
          ExportInfix(e, cond, 100, Question, yes, 101);
          Push(Colon);
          Export(no, 101);
        case Elvis(cond, no) =>
          ExportInfix(e, cond, 100, QuestionColon, no, 101);
      }
    }

    method ExportInfix(ghost whole: Expr, a: Expr, pl: nat, symbol: Token, b: Expr, pr: nat)
      requires (whole decreases to a) && (whole decreases to b)
      modifies this
      ensures out == old(out) + (Tokens(a, pl) + [symbol] + Tokens(b, pr))
      decreases whole, 0
    {
      Export(a, pl);
      Push(symbol);
      Export(b, pr);
    }

    method ExportElems(elems: seq<Elem>)
      modifies this
      ensures out == old(out) + List(elems)
      decreases elems, 0
    {
      hide Entry, List, Rest;
      RestEnds(elems);
      for i := 0 to |elems|
        invariant out + Rest(elems, i) == old(out) + List(elems)
      {
        RestUnfolds(elems, i);
        if i > 0 {
          Push(Comma);
        }
        ExportEntry(elems[i]);
      }
    }

    method ExportEntry(el: Elem)
      modifies this
      ensures out == old(out) + Entry(el)
      decreases el, 0
    {
      if el.key.Some? {
        Export(el.key.value, 80);
        Push(Arrow);
      }
      if el.byRef {
        Push(Ampersand);
      }
      Export(el.value, 80);
    }
  }

  lemma RestEnds(elems: seq<Elem>)
    ensures Rest(elems, 0) == List(elems) && Rest(elems, |elems|) == []
  {
    assert elems[0..] == elems;
  }

  lemma RestUnfolds(elems: seq<Elem>, i: nat)
    requires i < |elems|
    ensures Rest(elems, i) == (if i > 0 then [Comma] else []) + Entry(elems[i]) + Rest(elems, i + 1)
  {
    assert elems[i..][1..] == elems[i + 1..];
  }

  /** What is left of a list from element `i` on, its comma included. */
  function Rest(elems: seq<Elem>, i: nat): seq<Token>
    requires i <= |elems|
  {
    (if 0 < i < |elems| then [Comma] else []) + List(elems[i..])
  }

  // ---------- a reader over the same table ----------

  function BinaryOf(t: Token): Option<BinOp> {
    match t
    case Plus => Some(Add)
    case Minus => Some(Sub)
    case Times => Some(Mul)
    case Divide => Some(Div)
    case Percent => Some(Mod)
    case Power => Some(Pow)
    case Dot => Some(Concat)
    case ShiftLeft => Some(Shl)
    case ShiftRight => Some(Shr)
    case Pipe => Some(BitOr)
    case Ampersand => Some(BitAnd)
    case Caret => Some(BitXor)
    case Identical => Some(StrictEq)
    case NotIdentical => Some(StrictNe)
    case Equal => Some(LooseEq)
    case NotEqual => Some(LooseNe)
    case Less => Some(Lt)
    case LessEqual => Some(Le)
    case Greater => Some(Gt)
    case GreaterEqual => Some(Ge)
    case ThreeWay => Some(Spaceship)
    case AndAnd => Some(And)
    case OrOr => Some(Or)
    case _ => None
  }

  function UnaryOf(t: Token): Option<UnOp> {
    match t
    case Minus => Some(Neg)
    case Plus => Some(Pos)
    case Bang => Some(Not)
    case Tilde => Some(BitNot)
    case _ => None
  }

  type Reading<T> = Option<(T, seq<Token>)>

  /** Precedence climbing: an operand, then every operator of priority `min` or more. */
  function Read(min: nat, ts: seq<Token>): (r: Reading<Expr>)
    ensures r.Some? ==> |r.value.1| < |ts|
    decreases |ts|, 2
  {
    match ReadOperand(ts)
    case Some((lhs, rest)) => Climb(min, lhs, rest)
    case None => None
  }

  function ReadOperand(ts: seq<Token>): (r: Reading<Expr>)
    ensures r.Some? ==> |r.value.1| < |ts|
    decreases |ts|, 1
  {
    if ts == [] then None
    else if ts[0].Number? then Some((Int(ts[0].n), ts[1..]))
    else if ts[0].Word? then Some((Atom(ts[0].word), ts[1..]))
    else if ts[0] == Open then
      match Read(0, ts[1..])
      case Some((e, rest)) => if rest != [] && rest[0] == Close then Some((e, rest[1..])) else None
      case None => None
    else if ts[0] == OpenBracket then
      if |ts| > 1 && ts[1] == CloseBracket then Some((Array([]), ts[2..]))
      else match ReadList(ts[1..])
        case Some((elems, rest)) => Some((Array(elems), rest))
        case None => None
    else match UnaryOf(ts[0])
      case None => None
      case Some(op) =>
        match Read(241, ts[1..])
        case Some((x, rest)) => Some((Unary(op, x), rest))
        case None => None
  }

  function Climb(min: nat, lhs: Expr, ts: seq<Token>): (r: Reading<Expr>)
    ensures r.Some? ==> |r.value.1| <= |ts|
    decreases |ts|, 0
  {
    if InfixPriority(ts) < min then Some((lhs, ts))
    else if ts[0] == QuestionQuestion then
      match Read(110, ts[1..])
      case Some((b, rest)) => Climb(min, Coalesce(lhs, b), rest)
      case None => None
    else if ts[0] == QuestionColon then
      match Read(101, ts[1..])
      case Some((c, rest)) => Climb(min, Elvis(lhs, c), rest)
      case None => None
    else if ts[0] == Question then
      match Read(0, ts[1..])
      case Some((b, rest)) =>
        if rest == [] || rest[0] != Colon then None
        else (match Read(101, rest[1..])
          case Some((c, rest')) => Climb(min, Ternary(lhs, b, c), rest')
          case None => None)
      case None => None
    else
      var op := BinaryOf(ts[0]).value;
      match Read(Table(op).pr, ts[1..])
      case Some((b, rest)) => Climb(min, Binary(op, lhs, b), rest)
      case None => None
  }

  /** The priority of the infix operator that `ts` begins with, or -1. */
  function InfixPriority(ts: seq<Token>): (p: int)
    ensures p >= 0 ==> ts != []
    ensures p >= 0 && ts[0] !in {QuestionQuestion, QuestionColon, Question} ==> BinaryOf(ts[0]).Some?
  {
    if ts == [] then -1
    else match ts[0]
      case QuestionQuestion => 110
      case Question => 100
      case QuestionColon => 100
      case _ => if BinaryOf(ts[0]).Some? then Table(BinaryOf(ts[0]).value).p else -1
  }

  /** The elements up to the closing bracket. */
  function ReadList(ts: seq<Token>): (r: Reading<seq<Elem>>)
    ensures r.Some? ==> |r.value.1| < |ts|
    decreases |ts|, 5
  {
    match ReadEntry(ts)
    case None => None
    case Some((el, rest)) =>
      if rest == [] then None
      else if rest[0] == CloseBracket then Some(([el], rest[1..]))
      else if rest[0] != Comma then None
      else match ReadList(rest[1..])
        case Some((more, rest')) => Some(([el] + more, rest'))
        case None => None
  }

  function ReadEntry(ts: seq<Token>): (r: Reading<Elem>)
    ensures r.Some? ==> |r.value.1| < |ts|
    decreases |ts|, 4
  {
    if ts != [] && ts[0] == Ampersand then ReadValue(None, ts)
    else match Read(0, ts)
      case None => None
      case Some((e, rest)) =>
        if rest != [] && rest[0] == Arrow then ReadValue(Some(e), rest[1..])
        else Some((Elem(None, false, e), rest))
  }

  function ReadValue(key: Option<Expr>, ts: seq<Token>): (r: Reading<Elem>)
    ensures r.Some? ==> |r.value.1| < |ts|
    decreases |ts|, 3
  {
    var byRef := ts != [] && ts[0] == Ampersand;
    match Read(0, if byRef then ts[1..] else ts)
    case Some((e, rest)) => Some((Elem(key, byRef, e), rest))
    case None => None
  }

  // ---------- the output is read back ----------

  /** The expressions whose integer literals are not negative; a negative one prints as a negation. */
  predicate NonNegative(e: Expr) {
    match e
    case Int(n) => n >= 0
    case Atom(_) => true
    case Array(elems) => forall i :: 0 <= i < |elems| ==> NonNegativeEntry(elems[i])
    case Unary(_, x) => NonNegative(x)
    case Binary(_, a, b) => NonNegative(a) && NonNegative(b)
    case Coalesce(a, b) => NonNegative(a) && NonNegative(b)
    case Ternary(cond, yes, no) => NonNegative(cond) && NonNegative(yes) && NonNegative(no)
    case Elvis(cond, no) => NonNegative(cond) && NonNegative(no)
  }

  predicate NonNegativeEntry(el: Elem) {
    (el.key.Some? ==> NonNegative(el.key.value)) && NonNegative(el.value)
  }

  /** The priorities whose operators take an operand of the same priority on their right. */
  predicate RightAssociative(p: int) {
    p == 110 || p == 250
  }

  /** What follows does not continue an expression printed at priority `q`. */
  predicate Stops(rest: seq<Token>, q: nat) {
    var h := InfixPriority(rest);
    h < q || (h == q && !RightAssociative(q))
  }

  lemma ClimbStops(min: nat, e: Expr, rest: seq<Token>)
    requires InfixPriority(rest) < min
    ensures Climb(min, e, rest) == Some((e, rest))
  {
  }

  // One operator more, given how its right side reads.

  lemma SymbolNamesOperator(op: BinOp, rest: seq<Token>)
    ensures BinaryOf(Table(op).symbol) == Some(op)
    ensures Table(op).symbol !in {QuestionQuestion, QuestionColon, Question}
    ensures InfixPriority([Table(op).symbol] + rest) == Table(op).p
  {
  }

  lemma ClimbBinary(min: nat, lhs: Expr, op: BinOp, right: seq<Token>, b: Expr, rest: seq<Token>)
    requires min <= Table(op).p && Read(Table(op).pr, right) == Some((b, rest))
    ensures Climb(min, lhs, [Table(op).symbol] + right) == Climb(min, Binary(op, lhs, b), rest)
  {
    hide Table, BinaryOf, InfixPriority;
    SymbolNamesOperator(op, right);
    assert ([Table(op).symbol] + right)[1..] == right;
  }

  lemma ClimbCoalesce(min: nat, lhs: Expr, right: seq<Token>, b: Expr, rest: seq<Token>)
    requires min <= 110 && Read(110, right) == Some((b, rest))
    ensures Climb(min, lhs, [QuestionQuestion] + right) == Climb(min, Coalesce(lhs, b), rest)
  {
    hide Read, ReadOperand, BinaryOf, Table;
    assert ([QuestionQuestion] + right)[1..] == right;
  }

  lemma ClimbElvis(min: nat, lhs: Expr, right: seq<Token>, b: Expr, rest: seq<Token>)
    requires min <= 100 && Read(101, right) == Some((b, rest))
    ensures Climb(min, lhs, [QuestionColon] + right) == Climb(min, Elvis(lhs, b), rest)
  {
    hide Read, ReadOperand, BinaryOf, Table;
    assert ([QuestionColon] + right)[1..] == right;
  }

  lemma ClimbTernary(min: nat, lhs: Expr, right: seq<Token>, b: Expr, last: seq<Token>, c: Expr, rest: seq<Token>)
    requires min <= 100 && Read(0, right) == Some((b, [Colon] + last)) && Read(101, last) == Some((c, rest))
    ensures Climb(min, lhs, [Question] + right) == Climb(min, Ternary(lhs, b, c), rest)
  {
    hide Read, ReadOperand, BinaryOf, Table;
    assert ([Question] + right)[1..] == right && ([Colon] + last)[1..] == last;
  }

  lemma ReadUnary(min: nat, op: UnOp, right: seq<Token>, x: Expr, rest: seq<Token>)
    requires Read(241, right) == Some((x, rest))
    ensures Read(min, [UnarySymbol(op)] + right) == Climb(min, Unary(op, x), rest)
  {
    hide Climb, ReadList;
    assert ([UnarySymbol(op)] + right)[1..] == right;
    assert UnaryOf(UnarySymbol(op)) == Some(op);
  }

  lemma ReadParenthesized(min: nat, inner: seq<Token>, e: Expr, rest: seq<Token>)
    requires Read(0, inner) == Some((e, [Close] + rest))
    ensures Read(min, [Open] + inner) == Climb(min, e, rest)
  {
    assert ([Open] + inner)[1..] == inner && ([Close] + rest)[1..] == rest;
  }

  lemma ReadLeaf(min: nat, e: Expr, rest: seq<Token>)
    requires (e.Int? && e.n >= 0) || e.Atom?
    ensures Read(min, Bare(e) + rest) == Climb(min, e, rest)
  {
    assert (Bare(e) + rest)[1..] == rest;
  }

  /** The priorities of the table, as far as reading back needs them. */
  lemma TableBounds(op: BinOp, rest: seq<Token>)
    ensures 110 < Table(op).p <= Table(op).pl <= 251 && Table(op).p <= Table(op).pr <= 251
    ensures Stops([Table(op).symbol] + rest, Table(op).pl)
    ensures Stops(rest, Table(op).p) ==> InfixPriority(rest) < Table(op).pr
  {
  }

  /** Reading what is printed at priority `q` gives the expression back, whatever looser or equal
      priority the reader climbs from, and leaves what follows. */
  lemma {:induction false} ReadsBack(e: Expr, q: nat, min: nat, rest: seq<Token>)
    requires NonNegative(e) && min <= q <= 251 && Stops(rest, q)
    ensures Read(min, Tokens(e, q) + rest) == Climb(min, e, rest)
    decreases e, 2
  {
    hide Read, Climb, ReadOperand, Bare, NonNegative;
    if !LeafLike(e) && q > Priority(e) {
      var inner := Bare(e) + ([Close] + rest);
      assert Tokens(e, q) + rest == [Open] + inner;
      ReadsBareBack(e, 0, [Close] + rest);
      ClimbStops(0, e, [Close] + rest);
      ReadParenthesized(min, inner, e, rest);
    } else {
      ReadsBareBack(e, min, rest);
    }
  }

  /** The same for an expression on its own, which is read whole. */
  lemma {:induction false} ReadsWhole(e: Expr, q: nat, rest: seq<Token>)
    requires NonNegative(e) && q <= 251 && InfixPriority(rest) < q
    ensures Read(q, Tokens(e, q) + rest) == Some((e, rest))
    decreases e, 3
  {
    hide Read, Climb, ReadOperand, Bare, NonNegative;
    ReadsBack(e, q, q, rest);
    ClimbStops(q, e, rest);
  }

  /** And for one between delimiters. */
  lemma {:induction false} ReadsDelimited(e: Expr, q: nat, rest: seq<Token>)
    requires NonNegative(e) && q <= 251 && InfixPriority(rest) < 0
    ensures Read(0, Tokens(e, q) + rest) == Some((e, rest))
    decreases e, 3
  {
    hide Read, Climb, ReadOperand, Bare, NonNegative;
    ReadsBack(e, q, 0, rest);
    ClimbStops(0, e, rest);
  }

  lemma {:induction false} ReadsBareBack(e: Expr, min: nat, rest: seq<Token>)
    requires NonNegative(e) && min <= Priority(e) && Stops(rest, Priority(e))
    ensures Read(min, Bare(e) + rest) == Climb(min, e, rest)
    decreases e, 1
  {
    hide Read, Climb, ReadOperand, Table, InfixPriority;
    match e
    case Int(_) => ReadLeaf(min, e, rest);
    case Atom(_) => ReadLeaf(min, e, rest);
    case Array(elems) => ReadsArrayBack(min, elems, rest);
    case Unary(op, x) =>
      assert Bare(e) + rest == [UnarySymbol(op)] + (Tokens(x, 241) + rest);
      ReadsWhole(x, 241, rest);
      ReadUnary(min, op, Tokens(x, 241) + rest, x, rest);
    case Binary(op, a, b) => ReadsBinaryBack(op, a, b, min, rest);
    case Coalesce(a, b) => ReadsCoalesceBack(a, b, min, rest);
    case Ternary(cond, yes, no) => ReadsTernaryBack(cond, yes, no, min, rest);
    case Elvis(cond, no) => ReadsElvisBack(cond, no, min, rest);
  }

  lemma {:induction false} ReadsBinaryBack(op: BinOp, a: Expr, b: Expr, min: nat, rest: seq<Token>)
    requires NonNegative(a) && NonNegative(b) && min <= Table(op).p && Stops(rest, Table(op).p)
    ensures Read(min, Bare(Binary(op, a, b)) + rest) == Climb(min, Binary(op, a, b), rest)
    decreases Binary(op, a, b), 0
  {
    hide Read, Climb, ReadOperand, Tokens, NonNegative, Table, InfixPriority;
    var row := Table(op);
    var right := Tokens(b, row.pr) + rest;
    TableBounds(op, rest);
    TableBounds(op, right);
    assert Bare(Binary(op, a, b)) + rest == Tokens(a, row.pl) + ([row.symbol] + right);
    ReadsBack(a, row.pl, min, [row.symbol] + right);
    ReadsWhole(b, row.pr, rest);
    ClimbBinary(min, a, op, right, b, rest);
  }

  lemma {:induction false} ReadsCoalesceBack(a: Expr, b: Expr, min: nat, rest: seq<Token>)
    requires NonNegative(a) && NonNegative(b) && min <= 110 && Stops(rest, 110)
    ensures Read(min, Bare(Coalesce(a, b)) + rest) == Climb(min, Coalesce(a, b), rest)
    decreases Coalesce(a, b), 0
  {
    hide Read, Climb, ReadOperand, Tokens, NonNegative;
    var right := Tokens(b, 110) + rest;
    assert Bare(Coalesce(a, b)) + rest == Tokens(a, 111) + ([QuestionQuestion] + right);
    ReadsBack(a, 111, min, [QuestionQuestion] + right);
    ReadsWhole(b, 110, rest);
    ClimbCoalesce(min, a, right, b, rest);
  }

  lemma {:induction false} ReadsElvisBack(cond: Expr, no: Expr, min: nat, rest: seq<Token>)
    requires NonNegative(cond) && NonNegative(no) && min <= 100 && Stops(rest, 100)
    ensures Read(min, Bare(Elvis(cond, no)) + rest) == Climb(min, Elvis(cond, no), rest)
    decreases Elvis(cond, no), 0
  {
    hide Read, Climb, ReadOperand, Tokens, NonNegative;
    var right := Tokens(no, 101) + rest;
    assert Bare(Elvis(cond, no)) + rest == Tokens(cond, 100) + ([QuestionColon] + right);
    ReadsBack(cond, 100, min, [QuestionColon] + right);
    ReadsWhole(no, 101, rest);
    ClimbElvis(min, cond, right, no, rest);
  }

  lemma {:induction false} ReadsTernaryBack(cond: Expr, yes: Expr, no: Expr, min: nat, rest: seq<Token>)
    requires NonNegative(cond) && NonNegative(yes) && NonNegative(no) && min <= 100 && Stops(rest, 100)
    ensures Read(min, Bare(Ternary(cond, yes, no)) + rest) == Climb(min, Ternary(cond, yes, no), rest)
    decreases Ternary(cond, yes, no), 0
  {
    hide Read, Climb, ReadOperand, Tokens, NonNegative;
    var last := Tokens(no, 101) + rest;
    var right := Tokens(yes, 101) + ([Colon] + last);
    assert Bare(Ternary(cond, yes, no)) + rest == Tokens(cond, 100) + ([Question] + right);
    ReadsBack(cond, 100, min, [Question] + right);
    ReadsDelimited(yes, 101, [Colon] + last);
    ReadsWhole(no, 101, rest);
    ClimbTernary(min, cond, right, yes, last, no, rest);
  }

  lemma {:induction false} ReadsArrayBack(min: nat, elems: seq<Elem>, rest: seq<Token>)
    requires forall i :: 0 <= i < |elems| ==> NonNegativeEntry(elems[i])
    ensures Read(min, Bare(Array(elems)) + rest) == Climb(min, Array(elems), rest)
    decreases elems, 7
  {
    hide Climb, ReadList, List, NonNegativeEntry;
    var tail := List(elems) + ([CloseBracket] + rest);
    var ts := Bare(Array(elems)) + rest;
    assert ts == [OpenBracket] + tail && ts[1..] == tail;
    if elems == [] {
      ListOfNone();
      assert ts[2..] == rest;
    } else {
      ReadsListBack(elems, rest);
      ListStart(elems);
      assert ts[1] == List(elems)[0];
    }
  }

  lemma ListOfNone()
    ensures List([]) == []
  {
  }

  lemma ReadListStep(ts: seq<Token>, el: Elem, more: seq<Token>, elems: seq<Elem>, rest: seq<Token>)
    requires ReadEntry(ts) == Some((el, [Comma] + more)) && ReadList(more) == Some((elems, rest))
    ensures ReadList(ts) == Some(([el] + elems, rest))
  {
    hide ReadEntry;
    assert ([Comma] + more)[1..] == more;
  }

  lemma LastOfList(ts: seq<Token>, el: Elem, rest: seq<Token>)
    requires ReadEntry(ts) == Some((el, [CloseBracket] + rest))
    ensures ReadList(ts) == Some(([el], rest))
  {
    hide ReadEntry;
    assert ([CloseBracket] + rest)[1..] == rest;
  }

  lemma {:induction false} ReadsListBack(elems: seq<Elem>, rest: seq<Token>)
    requires elems != [] && forall i :: 0 <= i < |elems| ==> NonNegativeEntry(elems[i])
    ensures ReadList(List(elems) + ([CloseBracket] + rest)) == Some((elems, rest))
    decreases elems, 6
  {
    hide ReadEntry, Entry, NonNegativeEntry, ReadList;
    var end := [CloseBracket] + rest;
    if |elems| == 1 {
      assert List(elems) + end == Entry(elems[0]) + end;
      ReadsEntryBack(elems[0], end);
      assert elems == [elems[0]];
      LastOfList(List(elems) + end, elems[0], rest);
    } else {
      var more := List(elems[1..]) + end;
      assert List(elems) + end == Entry(elems[0]) + ([Comma] + more);
      ReadsEntryBack(elems[0], [Comma] + more);
      ReadsListBack(elems[1..], rest);
      ReadListStep(List(elems) + end, elems[0], more, elems[1..], rest);
      assert elems == [elems[0]] + elems[1..];
    }
  }

  lemma {:induction false} ReadsEntryBack(el: Elem, rest: seq<Token>)
    requires NonNegativeEntry(el) && rest != [] && rest[0] in {Comma, CloseBracket}
    ensures ReadEntry(Entry(el) + rest) == Some((el, rest))
    decreases el, 5
  {
    hide Read, Tokens, ReadValue, NonNegative, ReadEntry;
    var plain := Tokens(el.value, 80) + rest;
    var value := (if el.byRef then [Ampersand] else []) + plain;
    ReadsValueBack(el, rest);
    TokensStart(el.value, 80);
    if el.key.Some? {
      var k := el.key.value;
      assert Entry(el) + rest == Tokens(k, 80) + ([Arrow] + value);
      ReadsDelimited(k, 80, [Arrow] + value);
      TokensStart(k, 80);
      ReadKeyedEntry(Entry(el) + rest, k, value);
    } else {
      assert Entry(el) + rest == value && (!el.byRef ==> value == plain);
      ReadsDelimited(el.value, 80, rest);
      ReadPlainEntry(value, el, rest);
    }
  }

  lemma ReadKeyedEntry(ts: seq<Token>, k: Expr, value: seq<Token>)
    requires ts != [] && ts[0] != Ampersand && Read(0, ts) == Some((k, [Arrow] + value))
    ensures ReadEntry(ts) == ReadValue(Some(k), value)
  {
    assert ([Arrow] + value)[1..] == value;
  }

  lemma ReadPlainEntry(ts: seq<Token>, el: Elem, rest: seq<Token>)
    requires el.key.None? && ts != [] && rest != [] && rest[0] != Arrow
    requires if el.byRef then ts[0] == Ampersand && ReadValue(None, ts) == Some((el, rest))
             else ts[0] != Ampersand && Read(0, ts) == Some((el.value, rest))
    ensures ReadEntry(ts) == Some((el, rest))
  {
  }

  lemma {:induction false} ReadsValueBack(el: Elem, rest: seq<Token>)
    requires NonNegativeEntry(el) && rest != [] && rest[0] in {Comma, CloseBracket}
    ensures ReadValue(el.key, (if el.byRef then [Ampersand] else []) + (Tokens(el.value, 80) + rest)) ==
            Some((el, rest))
    decreases el, 4
  {
    hide Read, Tokens, NonNegative;
    var ts := (if el.byRef then [Ampersand] else []) + (Tokens(el.value, 80) + rest);
    ReadsDelimited(el.value, 80, rest);
    TokensStart(el.value, 80);
    assert el.byRef ==> ts[1..] == Tokens(el.value, 80) + rest;
    assert !el.byRef ==> ts == Tokens(el.value, 80) + rest;
  }

  /** No expression is printed starting with `&`, `,` or a closing bracket. */
  lemma {:induction false} TokensStart(e: Expr, q: nat)
    ensures Tokens(e, q) != [] && Tokens(e, q)[0] !in {Ampersand, CloseBracket}
    decreases e
  {
    match e
    case Binary(op, a, _) => TokensStart(a, Table(op).pl);
    case Coalesce(a, _) => TokensStart(a, 111);
    case Ternary(cond, _, _) => TokensStart(cond, 100);
    case Elvis(cond, _) => TokensStart(cond, 100);
    case _ =>
  }

  lemma ListStart(elems: seq<Elem>)
    requires elems != []
    ensures List(elems) != [] && List(elems)[0] != CloseBracket
  {
    var el := elems[0];
    TokensStart(el.value, 80);
    if el.key.Some? {
      TokensStart(el.key.value, 80);
    }
  }

  // ---------- and nothing else is ----------

  /** The reader never makes a negative literal. */
  lemma {:induction false} ReadIsNonNegative(min: nat, ts: seq<Token>)
    ensures var r := Read(min, ts); r.Some? ==> NonNegative(r.value.0)
    decreases |ts|, 2
  {
    hide ReadOperand, Climb, NonNegative;
    OperandIsNonNegative(ts);
    var r := ReadOperand(ts);
    if r.Some? {
      ClimbIsNonNegative(min, r.value.0, r.value.1);
    }
  }

  lemma {:induction false} OperandIsNonNegative(ts: seq<Token>)
    ensures var r := ReadOperand(ts); r.Some? ==> NonNegative(r.value.0)
    decreases |ts|, 1
  {
    hide Read, ReadList, Table, Climb;
    if ts != [] {
      ReadIsNonNegative(0, ts[1..]);
      ReadIsNonNegative(241, ts[1..]);
      ListIsNonNegative(ts[1..]);
    }
  }

  lemma {:induction false} ClimbIsNonNegative(min: nat, lhs: Expr, ts: seq<Token>)
    requires NonNegative(lhs)
    ensures var r := Climb(min, lhs, ts); r.Some? ==> NonNegative(r.value.0)
    decreases |ts|, 0
  {
    hide Read, Table, BinaryOf, InfixPriority;
    if InfixPriority(ts) >= min && Climb(min, lhs, ts).Some? {
      var t, tail := ts[0], ts[1..];
      var pr := if t == QuestionQuestion then 110 else if t == QuestionColon then 101
                else if t == Question then 0 else Table(BinaryOf(t).value).pr;
      ReadIsNonNegative(pr, tail);
      var (b, rest) := Read(pr, tail).value;
      if t == Question {
        ReadIsNonNegative(101, rest[1..]);
        var (c, rest') := Read(101, rest[1..]).value;
        ClimbIsNonNegative(min, Ternary(lhs, b, c), rest');
      } else {
        var e := if t == QuestionQuestion then Coalesce(lhs, b) else if t == QuestionColon then Elvis(lhs, b)
                 else Binary(BinaryOf(t).value, lhs, b);
        ClimbIsNonNegative(min, e, rest);
      }
    }
  }

  lemma {:induction false} ListIsNonNegative(ts: seq<Token>)
    ensures var r := ReadList(ts); r.Some? ==> NonNegative(Array(r.value.0))
    decreases |ts|, 4
  {
    hide ReadEntry, NonNegative, NonNegativeEntry;
    EntryIsNonNegative(ts);
    var entry, r := ReadEntry(ts), ReadList(ts);
    if r.Some? {
      var (el, rest) := entry.value;
      if rest[0] == CloseBracket {
        NonNegativeCons(el, []);
        assert [el] + [] == [el];
      } else {
        ListIsNonNegative(rest[1..]);
        NonNegativeCons(el, ReadList(rest[1..]).value.0);
      }
    }
  }

  lemma NonNegativeCons(el: Elem, more: seq<Elem>)
    requires NonNegativeEntry(el) && (more == [] || NonNegative(Array(more)))
    ensures NonNegative(Array([el] + more))
  {
  }

  lemma {:induction false} EntryIsNonNegative(ts: seq<Token>)
    ensures var r := ReadEntry(ts); r.Some? ==> NonNegativeEntry(r.value.0)
    decreases |ts|, 3
  {
    hide Read, NonNegative;
    ReadIsNonNegative(0, ts);
    if ts != [] {
      ReadIsNonNegative(0, ts[1..]);
    }
    var r := Read(0, ts);
    if r.Some? && r.value.1 != [] {
      var after := r.value.1[1..];
      ReadIsNonNegative(0, after);
      if after != [] {
        ReadIsNonNegative(0, after[1..]);
      }
    }
  }

  /**
    A reader that climbs the printer's own table, which no part of phplang is, takes a printed default back exactly
    when no integer literal in it is negative: by that table the parentheses suffice.
  */
  lemma ExportReadsBack(e: Expr)
    ensures Read(0, Tokens(e, 0)) == Some((e, [])) <==> NonNegative(e)
  {
    assert Tokens(e, 0) + [] == Tokens(e, 0);
    if NonNegative(e) {
      ReadsBack(e, 0, 0, []);
      ClimbStops(0, e, []);
    }
    ReadIsNonNegative(0, Tokens(e, 0));
  }
}
