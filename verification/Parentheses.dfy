/** The printer of constant expressions adds no parentheses in vain: which of them the reader over its table needs. */
module Parentheses {
  import opened Common
  import opened AstExport

  // ---------- a left operand ----------

  /** An operator with its right operand, waiting for the left one. */
  datatype Infixed = Bin(op: BinOp, b: Expr) | Coalescing(b: Expr) {
    /** The operator's priority, and the one its left operand is printed at. */
    function P(): nat {
      match this case Bin(op, _) => Table(op).p case Coalescing(_) => 110
    }

    function Q(): nat {
      match this case Bin(op, _) => Table(op).pl case Coalescing(_) => 111
    }

    function Fill(a: Expr): Expr {
      match this case Bin(op, b) => Binary(op, a, b) case Coalescing(b) => Coalesce(a, b)
    }

    function Follow(): seq<Token> {
      match this
      case Bin(op, b) => [Table(op).symbol] + Tokens(b, Table(op).pr)
      case Coalescing(b) => [QuestionQuestion] + Tokens(b, 110)
    }
  }

  /** Whether an operator of priority `p` that follows ends an operand of priority `q`. */
  predicate Ends(p: nat, q: nat) {
    p < q || (p == q && !RightAssociative(q))
  }

  /** What is read when the operator takes the last operand of `x` instead of `x`. */
  function Sink(x: Expr, c: Infixed): Expr
    decreases x, 0
  {
    match x
    case Unary(u, y) => Unary(u, Down(y, 241, c))
    case Binary(op, a, b) => Binary(op, a, Down(b, Table(op).pr, c))
    case Coalesce(a, b) => Coalesce(a, Down(b, 110, c))
    case Ternary(cond, yes, no) => Ternary(cond, yes, Down(no, 101, c))
    case Elvis(cond, no) => Elvis(cond, Down(no, 101, c))
    case _ => c.Fill(x)
  }

  function Down(y: Expr, q: nat, c: Infixed): Expr
    decreases y, 1
  {
    if LeafLike(y) || q > Priority(y) || Ends(c.P(), Priority(y)) then c.Fill(y) else Sink(y, c)
  }

  lemma FollowStarts(c: Infixed)
    ensures InfixPriority(c.Follow()) == c.P() && c.P() <= c.Q() <= c.P() + 1 && 110 <= c.P() <= 250
  {
    if c.Bin? {
      SymbolNamesOperator(c.op, Tokens(c.b, Table(c.op).pr));
    }
  }

  lemma Closed(min: nat, e: Expr)
    ensures Climb(min, e, []) == Some((e, []))
  {
  }

  /** An operand that was read is taken by the operator behind it. */
  lemma TakesOperand(min: nat, a: Expr, c: Infixed)
    requires NonNegative(c.b) && min <= c.P()
    ensures Climb(min, a, c.Follow()) == Some((c.Fill(a), []))
  {
    hide Read, Climb, Tokens, NonNegative;
    Closed(min, c.Fill(a));
    match c
    case Bin(op, b) =>
      TableBounds(op, []);
      assert Tokens(b, Table(op).pr) + [] == Tokens(b, Table(op).pr);
      ReadsWhole(b, Table(op).pr, []);
      ClimbBinary(min, a, op, Tokens(b, Table(op).pr), b, []);
    case Coalescing(b) =>
      assert Tokens(b, 110) + [] == Tokens(b, 110);
      ReadsWhole(b, 110, []);
      ClimbCoalesce(min, a, Tokens(b, 110), b, []);
  }

  /** A leaf, or an operand in parentheses, is printed as it is printed for the tightest operator. */
  lemma SealedTokens(y: Expr, q: nat)
    requires q <= 251 && (LeafLike(y) || q > Priority(y))
    ensures Tokens(y, q) == Tokens(y, 251)
  {
  }

  lemma {:induction false} DownReads(y: Expr, q: nat, c: Infixed)
    requires NonNegative(y) && NonNegative(c.b) && q <= c.P()
    ensures Read(q, Tokens(y, q) + c.Follow()) == Some((Down(y, q, c), []))
    decreases y, 1
  {
    hide Read, Climb, Bare, Table, InfixPriority, NonNegative;
    FollowStarts(c);
    if LeafLike(y) || q > Priority(y) {
      SealedTokens(y, q);
      ReadsBack(y, 251, q, c.Follow());
      TakesOperand(q, y, c);
    } else if Ends(c.P(), Priority(y)) {
      ReadsBareBack(y, q, c.Follow());
      TakesOperand(q, y, c);
    } else {
      SinkReads(y, q, c);
    }
  }

  lemma {:induction false} SinkReads(x: Expr, min: nat, c: Infixed)
    requires NonNegative(x) && NonNegative(c.b) && !LeafLike(x)
    requires min <= Priority(x) && !Ends(c.P(), Priority(x))
    ensures Read(min, Bare(x) + c.Follow()) == Some((Sink(x, c), []))
    decreases x, 0
  {
    hide Read, Climb, Tokens, InfixPriority;
    var f := c.Follow();
    FollowStarts(c);
    Closed(min, Sink(x, c));
    match x
    case Unary(u, y) =>
      DownReads(y, 241, c);
      assert Bare(x) + f == [UnarySymbol(u)] + (Tokens(y, 241) + f);
      ReadUnary(min, u, Tokens(y, 241) + f, Down(y, 241, c), []);
    case Binary(op, a, b) =>
      var right := Tokens(b, Table(op).pr) + f;
      TableBounds(op, right);
      DownReads(b, Table(op).pr, c);
      assert Bare(x) + f == Tokens(a, Table(op).pl) + ([Table(op).symbol] + right);
      ReadsBack(a, Table(op).pl, min, [Table(op).symbol] + right);
      ClimbBinary(min, a, op, right, Down(b, Table(op).pr, c), []);
    case Coalesce(a, b) =>
      var right := Tokens(b, 110) + f;
      DownReads(b, 110, c);
      assert Bare(x) + f == Tokens(a, 111) + ([QuestionQuestion] + right);
      StartsAt(QuestionQuestion, right, 110);
      ReadsBack(a, 111, min, [QuestionQuestion] + right);
      ClimbCoalesce(min, a, right, Down(b, 110, c), []);
    case Ternary(cond, yes, no) =>
      DownReads(no, 101, c);
      TernaryReads(cond, yes, no, min, f, Down(no, 101, c), []);
    case Elvis(cond, no) =>
      var right := Tokens(no, 101) + f;
      DownReads(no, 101, c);
      assert Bare(x) + f == Tokens(cond, 100) + ([QuestionColon] + right);
      StartsAt(QuestionColon, right, 100);
      ReadsBack(cond, 100, min, [QuestionColon] + right);
      ClimbElvis(min, cond, right, Down(no, 101, c), []);
  }

  /** Both branches of a conditional, given how the last one reads. */
  lemma TakesBranches(min: nat, cond: Expr, yes: Expr, last: seq<Token>, no: Expr, rest: seq<Token>)
    requires NonNegative(yes) && min <= 100 && Read(101, last) == Some((no, rest))
    ensures Climb(min, cond, [Question] + (Tokens(yes, 101) + ([Colon] + last))) ==
            Climb(min, Ternary(cond, yes, no), rest)
  {
    hide Read, Climb, Tokens, InfixPriority, NonNegative;
    StartsAt(Colon, last, -1);
    ReadsDelimited(yes, 101, [Colon] + last);
    ClimbTernary(min, cond, Tokens(yes, 101) + ([Colon] + last), yes, last, no, rest);
  }

  lemma TernaryReads(cond: Expr, yes: Expr, no: Expr, min: nat, f: seq<Token>, low: Expr, rest: seq<Token>)
    requires NonNegative(cond) && NonNegative(yes) && min <= 100
    requires Read(101, Tokens(no, 101) + f) == Some((low, rest))
    ensures Read(min, Bare(Ternary(cond, yes, no)) + f) == Climb(min, Ternary(cond, yes, low), rest)
  {
    hide Read, Climb, Tokens, InfixPriority, NonNegative;
    var last := Tokens(no, 101) + f;
    var right := Tokens(yes, 101) + ([Colon] + last);
    assert Bare(Ternary(cond, yes, no)) + f == Tokens(cond, 100) + ([Question] + right);
    StartsAt(Question, right, 100);
    ReadsBack(cond, 100, min, [Question] + right);
    TakesBranches(min, cond, yes, last, low, rest);
  }

  lemma StartsAt(t: Token, rest: seq<Token>, p: int)
    requires p == if t == QuestionQuestion then 110 else if t == Question || t == QuestionColon then 100 else -1
    requires t in {QuestionQuestion, Question, QuestionColon, Colon}
    ensures InfixPriority([t] + rest) == p
  {
  }

  lemma SinkDiffers(x: Expr, c: Infixed)
    requires !LeafLike(x)
    ensures Sink(x, c) != c.Fill(x)
  {
    hide Down;
    match x
    case Binary(_, a, _) => assert x decreases to a;
    case Coalesce(a, _) => assert x decreases to a;
    case _ =>
  }

  /**
    A left operand that is printed in parentheses needs them: without, something else is read, unless it is a
    comparison (or an equality) to the left of one of the same priority.
  */
  lemma LeftParentheses(a: Expr, c: Infixed)
    requires NonNegative(a) && NonNegative(c.b)
    requires Bare(c.Fill(a)) == [Open] + Bare(a) + [Close] + c.Follow()
    ensures Read(0, Bare(a) + c.Follow()) == Some((c.Fill(a), [])) <==>
            Priority(a) == c.P() && c.P() in {170, 180}
  {
    hide Read, Climb, InfixPriority, NonNegative, Sink, Bare, Tokens;
    FollowStarts(c);
    FilledTight(a, c);
    if Ends(c.P(), Priority(a)) {
      ReadsBareBack(a, 0, c.Follow());
      TakesOperand(0, a, c);
    } else {
      SinkReads(a, 0, c);
      SinkDiffers(a, c);
    }
  }

  lemma FilledTight(a: Expr, c: Infixed)
    requires Bare(c.Fill(a)) == [Open] + Bare(a) + [Close] + c.Follow()
    ensures !LeafLike(a) && Priority(a) < c.Q()
  {
    assert Bare(c.Fill(a)) == Tokens(a, c.Q()) + c.Follow();
    assert |Bare(c.Fill(a))| > |Bare(a) + c.Follow()|;
  }

  // ---------- a right operand ----------

  /** A prefix, infix or conditional operator waiting for its last operand. */
  datatype Opened =
    | Prefix(u: UnOp)
    | After(op: BinOp, a: Expr)
    | AfterCoalesce(a: Expr)
    | AfterColon(cond: Expr, yes: Expr)
    | AfterElvis(cond: Expr)
  {
    function Q(): nat {
      match this
      case Prefix(_) => 241
      case After(op, _) => Table(op).pr
      case AfterCoalesce(_) => 110
      case _ => 101
    }

    function Fill(x: Expr): Expr {
      match this
      case Prefix(u) => Unary(u, x)
      case After(op, a) => Binary(op, a, x)
      case AfterCoalesce(a) => Coalesce(a, x)
      case AfterColon(cond, yes) => Ternary(cond, yes, x)
      case AfterElvis(cond) => Elvis(cond, x)
    }

    function Lead(): seq<Token> {
      match this
      case Prefix(u) => [UnarySymbol(u)]
      case After(op, a) => Tokens(a, Table(op).pl) + [Table(op).symbol]
      case AfterCoalesce(a) => Tokens(a, 111) + [QuestionQuestion]
      case AfterColon(cond, yes) => Tokens(cond, 100) + [Question] + Tokens(yes, 101) + [Colon]
      case AfterElvis(cond) => Tokens(cond, 100) + [QuestionColon]
    }

    predicate NonNegativeLead() {
      match this
      case Prefix(_) => true
      case After(_, a) => NonNegative(a)
      case AfterCoalesce(a) => NonNegative(a)
      case AfterColon(cond, yes) => NonNegative(cond) && NonNegative(yes)
      case AfterElvis(cond) => NonNegative(cond)
    }
  }

  /** What is read when the operator takes the first operand of `x` instead of `x`. */
  function Raise(c: Opened, x: Expr): Expr
    decreases x, 0
  {
    match x
    case Binary(op, a, b) => Binary(op, Up(c, a, Table(op).pl), b)
    case Coalesce(a, b) => Coalesce(Up(c, a, 111), b)
    case Ternary(cond, yes, no) => Ternary(Up(c, cond, 100), yes, no)
    case Elvis(cond, no) => Elvis(Up(c, cond, 100), no)
    case _ => c.Fill(x)
  }

  function Up(c: Opened, y: Expr, q: nat): Expr
    decreases y, 1
  {
    if LeafLike(y) || q > Priority(y) || Priority(y) >= c.Q() || y.Unary? then c.Fill(y) else Raise(c, y)
  }

  lemma QBounds(c: Opened)
    ensures 101 <= c.Q() <= 250
  {
  }

  /** Once its last operand is read the operator is complete. */
  lemma TakesLast(c: Opened, ts: seq<Token>, h: Expr, rest: seq<Token>)
    requires c.NonNegativeLead() && Read(c.Q(), ts) == Some((h, rest))
    ensures Read(0, c.Lead() + ts) == Climb(0, c.Fill(h), rest)
  {
    hide Read, Climb, Tokens, InfixPriority;
    match c
    case Prefix(u) =>
      ReadUnary(0, u, ts, h, rest);
    case After(op, a) =>
      TableBounds(op, ts);
      assert c.Lead() + ts == Tokens(a, Table(op).pl) + ([Table(op).symbol] + ts);
      ReadsBack(a, Table(op).pl, 0, [Table(op).symbol] + ts);
      ClimbBinary(0, a, op, ts, h, rest);
    case AfterCoalesce(a) =>
      assert c.Lead() + ts == Tokens(a, 111) + ([QuestionQuestion] + ts);
      StartsAt(QuestionQuestion, ts, 110);
      ReadsBack(a, 111, 0, [QuestionQuestion] + ts);
      ClimbCoalesce(0, a, ts, h, rest);
    case AfterColon(cond, yes) =>
      var right := Tokens(yes, 101) + ([Colon] + ts);
      assert c.Lead() + ts == Tokens(cond, 100) + ([Question] + right);
      StartsAt(Question, right, 100);
      StartsAt(Colon, ts, -1);
      ReadsBack(cond, 100, 0, [Question] + right);
      ReadsDelimited(yes, 101, [Colon] + ts);
      ClimbTernary(0, cond, right, yes, ts, h, rest);
    case AfterElvis(cond) =>
      assert c.Lead() + ts == Tokens(cond, 100) + ([QuestionColon] + ts);
      StartsAt(QuestionColon, ts, 100);
      ReadsBack(cond, 100, 0, [QuestionColon] + ts);
      ClimbElvis(0, cond, ts, h, rest);
  }

  /** A prefix operator is read whatever priority is asked for. */
  lemma UnaryReads(c: Opened, u: UnOp, y: Expr, rest: seq<Token>)
    requires NonNegative(y) && InfixPriority(rest) < c.Q() && InfixPriority(rest) < 241
    ensures Read(c.Q(), Bare(Unary(u, y)) + rest) == Some((Unary(u, y), rest))
  {
    hide Read, Climb, Tokens, InfixPriority;
    assert Bare(Unary(u, y)) + rest == [UnarySymbol(u)] + (Tokens(y, 241) + rest);
    ReadsWhole(y, 241, rest);
    ReadUnary(c.Q(), u, Tokens(y, 241) + rest, y, rest);
    ClimbStops(c.Q(), Unary(u, y), rest);
  }

  lemma {:induction false} UpReads(c: Opened, y: Expr, q: nat, rest: seq<Token>)
    requires NonNegative(y) && c.NonNegativeLead() && q <= 251
    requires InfixPriority(rest) < c.Q() && InfixPriority(rest) < 241 && Stops(rest, q)
    ensures Read(0, c.Lead() + (Tokens(y, q) + rest)) == Climb(0, Up(c, y, q), rest)
    decreases y, 1
  {
    hide Read, Climb, Bare, Table, InfixPriority, NonNegative;
    QBounds(c);
    if LeafLike(y) || q > Priority(y) {
      SealedTokens(y, q);
      ReadsBack(y, 251, c.Q(), rest);
      ClimbStops(c.Q(), y, rest);
      TakesLast(c, Tokens(y, q) + rest, y, rest);
    } else if y.Unary? {
      NonNegativeOperand(y);
      UnaryReads(c, y.uop, y.x, rest);
      TakesLast(c, Tokens(y, q) + rest, y, rest);
    } else if Priority(y) >= c.Q() {
      ReadsBareBack(y, c.Q(), rest);
      ClimbStops(c.Q(), y, rest);
      TakesLast(c, Tokens(y, q) + rest, y, rest);
    } else {
      RaiseReads(c, y, rest);
    }
  }

  lemma NonNegativeOperand(y: Expr)
    requires NonNegative(y) && y.Unary?
    ensures NonNegative(y.x)
  {
  }

  lemma {:induction false} RaiseReads(c: Opened, x: Expr, rest: seq<Token>)
    requires NonNegative(x) && c.NonNegativeLead() && !LeafLike(x) && !x.Unary?
    requires Priority(x) < c.Q() && Stops(rest, Priority(x))
    ensures Read(0, c.Lead() + (Bare(x) + rest)) == Climb(0, Raise(c, x), rest)
    decreases x, 0
  {
    hide Read, Climb, Tokens, InfixPriority;
    match x
    case Binary(op, a, b) =>
      var right := Tokens(b, Table(op).pr) + rest;
      TableBounds(op, rest);
      TableBounds(op, right);
      SymbolNamesOperator(op, right);
      assert Bare(x) + rest == Tokens(a, Table(op).pl) + ([Table(op).symbol] + right);
      UpReads(c, a, Table(op).pl, [Table(op).symbol] + right);
      ReadsWhole(b, Table(op).pr, rest);
      ClimbBinary(0, Up(c, a, Table(op).pl), op, right, b, rest);
    case Coalesce(a, b) =>
      var right := Tokens(b, 110) + rest;
      assert Bare(x) + rest == Tokens(a, 111) + ([QuestionQuestion] + right);
      StartsAt(QuestionQuestion, right, 110);
      UpReads(c, a, 111, [QuestionQuestion] + right);
      ReadsWhole(b, 110, rest);
      ClimbCoalesce(0, Up(c, a, 111), right, b, rest);
    case Ternary(cond, yes, no) =>
      var right := Tokens(yes, 101) + ([Colon] + (Tokens(no, 101) + rest));
      assert Bare(x) + rest == Tokens(cond, 100) + ([Question] + right);
      StartsAt(Question, right, 100);
      UpReads(c, cond, 100, [Question] + right);
      ReadsWhole(no, 101, rest);
      TakesBranches(0, Up(c, cond, 100), yes, Tokens(no, 101) + rest, no, rest);
    case Elvis(cond, no) =>
      var right := Tokens(no, 101) + rest;
      assert Bare(x) + rest == Tokens(cond, 100) + ([QuestionColon] + right);
      StartsAt(QuestionColon, right, 100);
      UpReads(c, cond, 100, [QuestionColon] + right);
      ReadsWhole(no, 101, rest);
      ClimbElvis(0, Up(c, cond, 100), right, no, rest);
  }

  lemma RaiseDiffers(c: Opened, x: Expr)
    requires !LeafLike(x) && !x.Unary?
    ensures Raise(c, x) != c.Fill(x)
  {
    hide Up;
    match x
    case Binary(_, _, b) => assert x decreases to b;
    case Coalesce(_, b) => assert x decreases to b;
    case Ternary(_, _, no) => assert x decreases to no;
    case Elvis(_, no) => assert x decreases to no;
  }

  /** A last operand that is printed in parentheses needs them, unless a prefix operator begins it. */
  lemma RightParentheses(c: Opened, x: Expr)
    requires NonNegative(x) && c.NonNegativeLead()
    requires Bare(c.Fill(x)) == c.Lead() + [Open] + Bare(x) + [Close]
    ensures Read(0, c.Lead() + Bare(x)) == Some((c.Fill(x), [])) <==> x.Unary?
  {
    hide Read, Climb, InfixPriority, NonNegative, Raise, Bare, Tokens;
    QBounds(c);
    PrintedTight(c, x);
    assert Bare(x) + [] == Bare(x);
    NothingFollows();
    Closed(0, c.Fill(x));
    if x.Unary? {
      NonNegativeOperand(x);
      UnaryReads(c, x.uop, x.x, []);
      TakesLast(c, Bare(x), x, []);
    } else {
      RaiseReads(c, x, []);
      Closed(0, Raise(c, x));
      RaiseDiffers(c, x);
    }
  }

  lemma PrintedTight(c: Opened, x: Expr)
    requires Bare(c.Fill(x)) == c.Lead() + [Open] + Bare(x) + [Close]
    ensures !LeafLike(x) && Priority(x) < c.Q()
  {
    assert Bare(c.Fill(x)) == c.Lead() + Tokens(x, c.Q());
    assert |Bare(c.Fill(x))| > |c.Lead() + Bare(x)|;
  }

  lemma NothingFollows()
    ensures InfixPriority([]) == -1
  {
  }

  /** Between `?` and `:` no operand needs parentheses. */
  lemma MiddleParentheses(cond: Expr, yes: Expr, no: Expr)
    requires NonNegative(cond) && NonNegative(yes) && NonNegative(no)
    ensures Read(0, Tokens(cond, 100) + [Question] + Bare(yes) + [Colon] + Tokens(no, 101)) ==
            Some((Ternary(cond, yes, no), []))
  {
    hide Read, Climb, Tokens, Bare, InfixPriority, NonNegative;
    var last := Tokens(no, 101);
    var right := Bare(yes) + ([Colon] + last);
    assert Tokens(cond, 100) + [Question] + Bare(yes) + [Colon] + last == Tokens(cond, 100) + ([Question] + right);
    assert last + [] == last;
    StartsAt(Question, right, 100);
    StartsAt(Colon, last, -1);
    NothingFollows();
    ReadsBack(cond, 100, 0, [Question] + right);
    ReadsBareBack(yes, 0, [Colon] + last);
    ClimbStops(0, yes, [Colon] + last);
    ReadsWhole(no, 101, []);
    ClimbTernary(0, cond, right, yes, last, no, []);
    Closed(0, Ternary(cond, yes, no));
  }
}
