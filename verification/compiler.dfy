/**
 * The recursive-descent parser of the query language (`Compiler::
 * compile_value`, `compile_condition`, `compile_term`, `compile_expression`
 * and `compile` in `src/parser/compiler.rs`). Grammar, as the code reads it:
 *
 *   program    ::= ( WHERE expression | regex )*   -- a regex must be last
 *   expression ::= term ( OR term )*
 *   term       ::= condition ( AND condition )*
 *   condition  ::= '(' expression <any token> | identifier op value
 *
 * Each function takes the token list and the position of the next token and
 * returns the tree together with the position after it.
 */
module QueryCompiler {
  import opened Base
  import opened Host
  import L = Lexer
  import Q = Queries

  type Tokens = seq<L.Token>
  type Error = L.ParseError

  /** A parsed query and the position of the first token after it. */
  datatype Parsed = Parsed(query: Q.Query, next: nat)

  /** The literal tokens `compile_value` accepts; a pattern only when the
      caller allows it. */
  predicate IsValue(t: L.Token, allowRegex: bool)
  {
    t.String? || t.Number? || t.Date? || (allowRegex && t.Regex?)
  }

  /** `compile_value`. */
  function CompileValue(ts: Tokens, p: nat, allowRegex: bool): (r: Result<(L.Token, nat), Error>)
    requires p <= |ts|
    ensures r.Ok? <==> p < |ts| && IsValue(ts[p], allowRegex)
    ensures r.Ok? ==> r.value == (ts[p], p + 1)
    ensures p == |ts| ==> r == Err(L.UnexpectedEndOfInput)
    ensures p < |ts| && !IsValue(ts[p], allowRegex) ==> r == Err(L.UnexpectedToken(ts[p]))
  {
    if p == |ts| then Err(L.UnexpectedEndOfInput)
    else if IsValue(ts[p], allowRegex) then Ok((ts[p], p + 1))
    else Err(L.UnexpectedToken(ts[p]))
  }

  /** The comparison operator a token stands for. */
  function OperatorOf(t: L.Token): Option<Q.Op>
  {
    match t
    case Equal => Some(Q.OpEq)
    case Greater => Some(Q.OpGt)
    case Less => Some(Q.OpLt)
    case GE => Some(Q.OpGe)
    case LE => Some(Q.OpLe)
    case NE => Some(Q.OpNe)
    case _ => None
  }

  /** The token of a comparison operator. */
  function OperatorToken(op: Q.Op): (t: L.Token)
    ensures OperatorOf(t) == Some(op)
  {
    match op
    case OpEq => L.Token.Equal
    case OpGt => L.Token.Greater
    case OpLt => L.Token.Less
    case OpGe => L.GE
    case OpLe => L.LE
    case OpNe => L.NE
  }

  /** `compile_condition`. A parenthesised expression consumes the token
      after it, whatever that token is. */
  function CompileCondition(ts: Tokens, p: nat): (r: Result<Parsed, Error>)
    requires p <= |ts|
    ensures r.Ok? ==> p < r.value.next <= |ts|
    decreases |ts| - p, 0
  {
    if p == |ts| then Err(L.UnexpectedEndOfInput)
    else match ts[p]
      case OpenBrace =>
        (match CompileExpression(ts, p + 1)
         case Err(e) => Err(e)
         case Ok(inner) => Ok(Parsed(inner.query, if inner.next < |ts| then inner.next + 1 else inner.next)))
      case Identifier(_) =>
        if p + 1 == |ts| then Err(L.UnexpectedEndOfInput)
        else
          (match OperatorOf(ts[p + 1])
           case None => Err(L.UnexpectedToken(ts[p + 1]))
           case Some(op) =>
             match CompileValue(ts, p + 2, op == Q.OpEq)
             case Err(e) => Err(e)
             case Ok((v, next)) => Ok(Parsed(Q.Compare(op, ts[p], v), next)))
      case _ => Err(L.UnexpectedToken(ts[p]))
  }

  /** `compile_term`. */
  function CompileTerm(ts: Tokens, p: nat): (r: Result<Parsed, Error>)
    requires p <= |ts|
    ensures r.Ok? ==> p < r.value.next <= |ts|
    decreases |ts| - p, 1
  {
    match CompileCondition(ts, p)
    case Err(e) => Err(e)
    case Ok(first) => TermLoop(ts, first.next, first.query)
  }

  /** The `while AND` loop of `compile_term`: each further condition becomes
      the right child of a new `And` whose left child is everything so far. */
  function TermLoop(ts: Tokens, p: nat, acc: Q.Query): (r: Result<Parsed, Error>)
    requires p <= |ts|
    ensures r.Ok? ==> p <= r.value.next <= |ts|
    decreases |ts| - p, 1
  {
    if p < |ts| && ts[p] == L.AND then
      match CompileCondition(ts, p + 1)
      case Err(e) => Err(e)
      case Ok(c) => TermLoop(ts, c.next, Q.And(acc, c.query))
    else Ok(Parsed(acc, p))
  }

  /** `compile_expression`. */
  function CompileExpression(ts: Tokens, p: nat): (r: Result<Parsed, Error>)
    requires p <= |ts|
    ensures r.Ok? ==> p < r.value.next <= |ts|
    decreases |ts| - p, 2
  {
    match CompileTerm(ts, p)
    case Err(e) => Err(e)
    case Ok(first) => ExprLoop(ts, first.next, first.query)
  }

  /** The `while OR` loop of `compile_expression`. */
  function ExprLoop(ts: Tokens, p: nat, acc: Q.Query): (r: Result<Parsed, Error>)
    requires p <= |ts|
    ensures r.Ok? ==> p <= r.value.next <= |ts|
    decreases |ts| - p, 2
  {
    if p < |ts| && ts[p] == L.OR then
      match CompileTerm(ts, p + 1)
      case Err(e) => Err(e)
      case Ok(t) => ExprLoop(ts, t.next, Q.Or(acc, t.query))
    else Ok(Parsed(acc, p))
  }

  /** The loop of `compile`: `WHERE` sets the condition of the query (a later
      `WHERE` replaces an earlier one), a pattern becomes the whole query and
      must be the last token, and any other token is an error. */
  function CompileFrom(ts: Tokens, p: nat, ast: Q.Query): Result<Q.Query, Error>
    requires p <= |ts|
    decreases |ts| - p
  {
    if p == |ts| then Ok(ast)
    else match ts[p]
      case WHERE =>
        if ast.Expr? then
          match CompileExpression(ts, p + 1)
          case Err(e) => Err(e)
          case Ok(w) => CompileFrom(ts, w.next, Q.Expr(Some(w.query), ast.order))
        else CompileFrom(ts, p + 1, ast)
      case Regex(pattern) =>
        if p + 1 < |ts| then Err(L.UnexpectedToken(ts[p + 1])) else Ok(Q.Regex(pattern))
      case _ => Err(L.UnexpectedToken(ts[p]))
  }

  /** `compile`: tokenize, then parse from an empty query. Only the lexer
      can panic. */
  function Compile(c: L.Compiler, program: string): (r: Exec<Result<Q.Query, Error>>)
    ensures !r.Loops?
    ensures r.Panics? <==> L.Tokenize(c, program).Panics?
  {
    match L.Tokenize(c, program)
    case Returns(Err(e)) => Returns(Err(e))
    case Returns(Ok(ts)) => Returns(CompileFrom(ts, 0, Q.Expr(None, None)))
    case Panics => Panics
    case Loops => Loops
  }

  // ---------------------------------------------------------------------
  // Writing a condition back as tokens: the parser's partner

  /** The conditions the parser can produce: comparisons of an identifier
      with a value (a pattern only under `=`), combined by `And` and `Or`. */
  predicate WellFormed(q: Q.Query)
  {
    match q
    case And(a, b) => WellFormed(a) && WellFormed(b)
    case Or(a, b) => WellFormed(a) && WellFormed(b)
    case Expr(_, _) => false
    case Regex(_) => false
    case _ => q.l.Identifier? && IsValue(q.r, Q.OpOf(q) == Q.OpEq)
  }

  function ExprRank(q: Q.Query): nat { if q.Or? then 0 else if q.And? then 1 else 2 }
  function TermRank(q: Q.Query): nat { if q.Or? then 2 else if q.And? then 0 else 1 }
  function CondRank(q: Q.Query): nat { if q.Or? then 1 else if q.And? then 2 else 0 }

  /** An expression: its `Or` spine left-nested, without parentheses. */
  function RenderExpr(q: Q.Query): Tokens
    decreases q, ExprRank(q)
  {
    if q.Or? then RenderExpr(q.left) + [L.OR] + RenderTerm(q.right) else RenderTerm(q)
  }

  /** A term: its `And` spine left-nested, without parentheses. */
  function RenderTerm(q: Q.Query): Tokens
    decreases q, TermRank(q)
  {
    if q.And? then RenderTerm(q.left) + [L.AND] + RenderCond(q.right) else RenderCond(q)
  }

  /** A condition: a comparison, or any other tree in parentheses. */
  function RenderCond(q: Q.Query): Tokens
    decreases q, CondRank(q)
  {
    if q.And? || q.Or? then [L.OpenBrace] + RenderExpr(q) + [L.CloseBrace]
    else if Q.IsComparison(q) then [q.l, OperatorToken(Q.OpOf(q)), q.r]
    else []
  }

  /** `us` occurs in `ts` at position `p`. */
  predicate At(ts: Tokens, p: nat, us: Tokens)
  {
    p + |us| <= |ts| && forall k {:trigger us[k]} :: 0 <= k < |us| ==> ts[p + k] == us[k]
  }

  lemma AtSplit(ts: Tokens, p: nat, a: Tokens, b: Tokens)
    requires At(ts, p, a + b)
    ensures At(ts, p, a) && At(ts, p + |a|, b)
  {
    forall k | 0 <= k < |a| ensures ts[p + k] == a[k] {
      assert (a + b)[k] == a[k];
    }
    forall k | 0 <= k < |b| ensures ts[p + |a| + k] == b[k] {
      assert (a + b)[|a| + k] == b[k];
    }
  }

  lemma AtIndex(ts: Tokens, p: nat, us: Tokens, k: nat)
    requires At(ts, p, us) && k < |us|
    ensures ts[p + k] == us[k]
  {
  }

  /** Position `p` does not hold the token `t`. */
  predicate NotAt(ts: Tokens, p: nat, t: L.Token)
  {
    p >= |ts| || ts[p] != t
  }

  /** A rendered condition parses back to itself. */
  lemma {:induction false} CondRoundTrip(ts: Tokens, p: nat, q: Q.Query)
    requires WellFormed(q) && At(ts, p, RenderCond(q))
    ensures CompileCondition(ts, p) == Ok(Parsed(q, p + |RenderCond(q)|))
    decreases q, CondRank(q)
  {
    if q.And? || q.Or? {
      var inner := RenderExpr(q);
      var e := p + 1 + |inner|;
      AtSplit(ts, p, [L.OpenBrace] + inner, [L.CloseBrace]);
      AtSplit(ts, p, [L.OpenBrace], inner);
      AtIndex(ts, p, [L.OpenBrace], 0);
      AtIndex(ts, e, [L.CloseBrace], 0);
      assert CompileExpression(ts, p + 1) == ExprLoop(ts, e, q) by {
        ExprPrefix(ts, p + 1, q);
      }
      assert ExprLoop(ts, e, q) == Ok(Parsed(q, e));
    } else {
      var us := RenderCond(q);
      AtIndex(ts, p, us, 0);
      AtIndex(ts, p, us, 1);
      AtIndex(ts, p, us, 2);
      assert Q.Compare(Q.OpOf(q), q.l, q.r) == q;
    }
  }

  /** Parsing a rendered term runs the `AND` loop up to the end of it, with
      the whole term as the accumulated tree. */
  lemma {:induction false} TermPrefix(ts: Tokens, p: nat, q: Q.Query)
    requires WellFormed(q) && At(ts, p, RenderTerm(q))
    ensures CompileTerm(ts, p) == TermLoop(ts, p + |RenderTerm(q)|, q)
    decreases q, TermRank(q)
  {
    if q.And? {
      var left := RenderTerm(q.left);
      var m := p + |left|;
      AtSplit(ts, p, left + [L.AND], RenderCond(q.right));
      AtSplit(ts, p, left, [L.AND]);
      AtIndex(ts, m, [L.AND], 0);
      assert CompileTerm(ts, p) == TermLoop(ts, m, q.left) by {
        TermPrefix(ts, p, q.left);
      }
      assert CompileCondition(ts, m + 1) == Ok(Parsed(q.right, p + |RenderTerm(q)|)) by {
        CondRoundTrip(ts, m + 1, q.right);
      }
    } else {
      CondRoundTrip(ts, p, q);
    }
  }

  /** A rendered term parses back to itself when no `AND` follows it. */
  lemma TermRoundTrip(ts: Tokens, p: nat, q: Q.Query)
    requires WellFormed(q) && At(ts, p, RenderTerm(q))
    requires NotAt(ts, p + |RenderTerm(q)|, L.AND)
    ensures CompileTerm(ts, p) == Ok(Parsed(q, p + |RenderTerm(q)|))
    decreases q, TermRank(q), 0
  {
    TermPrefix(ts, p, q);
  }

  /** Parsing a rendered expression runs the `OR` loop up to the end of it,
      with the whole expression as the accumulated tree. */
  lemma {:induction false} ExprPrefix(ts: Tokens, p: nat, q: Q.Query)
    requires WellFormed(q) && At(ts, p, RenderExpr(q))
    requires NotAt(ts, p + |RenderExpr(q)|, L.AND)
    ensures CompileExpression(ts, p) == ExprLoop(ts, p + |RenderExpr(q)|, q)
    decreases q, ExprRank(q)
  {
    if q.Or? {
      var left := RenderExpr(q.left);
      var m := p + |left|;
      AtSplit(ts, p, left + [L.OR], RenderTerm(q.right));
      AtSplit(ts, p, left, [L.OR]);
      AtIndex(ts, m, [L.OR], 0);
      assert CompileExpression(ts, p) == ExprLoop(ts, m, q.left) by {
        ExprPrefix(ts, p, q.left);
      }
      assert CompileTerm(ts, m + 1) == Ok(Parsed(q.right, p + |RenderExpr(q)|)) by {
        TermPrefix(ts, m + 1, q.right);
      }
    } else {
      TermPrefix(ts, p, q);
    }
  }

  /** A rendered expression parses back to itself when neither `AND` nor
      `OR` follows it. */
  lemma ExprRoundTrip(ts: Tokens, p: nat, q: Q.Query)
    requires WellFormed(q) && At(ts, p, RenderExpr(q))
    requires NotAt(ts, p + |RenderExpr(q)|, L.AND) && NotAt(ts, p + |RenderExpr(q)|, L.OR)
    ensures CompileExpression(ts, p) == Ok(Parsed(q, p + |RenderExpr(q)|))
  {
    ExprPrefix(ts, p, q);
  }

  /** `WHERE` followed by a rendered condition compiles to a query with that
      condition: so `AND` binds tighter than `OR`, both group to the left,
      and parentheses are needed exactly where `RenderCond` puts them. */
  lemma CompileRendered(q: Q.Query)
    requires WellFormed(q)
    ensures CompileFrom([L.WHERE] + RenderExpr(q), 0, Q.Expr(None, None)) == Ok(Q.Expr(Some(q), None))
  {
    var ts := [L.WHERE] + RenderExpr(q);
    AtSplit(ts, 0, [L.WHERE], RenderExpr(q));
    ExprRoundTrip(ts, 1, q);
  }

    /** `AND` binds tighter than `OR`: `a OR b AND d` is `a OR (b AND d)`. */
  lemma AndBindsTighterRight(a: Q.Query, b: Q.Query, d: Q.Query)
    requires Q.IsComparison(a) && Q.IsComparison(b) && Q.IsComparison(d)
    requires WellFormed(a) && WellFormed(b) && WellFormed(d)
    ensures CompileFrom([L.WHERE] + RenderCond(a) + [L.OR] + RenderCond(b) + [L.AND] + RenderCond(d), 0, Q.Expr(None, None))
      == Ok(Q.Expr(Some(Q.Or(a, Q.And(b, d))), None))
  {
    var ra, rb, rd := RenderCond(a), RenderCond(b), RenderCond(d);
    var q := Q.Or(a, Q.And(b, d));
    assert RenderExpr(q) == ra + [L.OR] + (rb + [L.AND] + rd) by {
      assert RenderExpr(a) == RenderTerm(a) == ra;
      assert RenderTerm(b) == rb;
    }
    assert [L.WHERE] + RenderExpr(q) == [L.WHERE] + ra + [L.OR] + rb + [L.AND] + rd;
    CompileRendered(q);
  }

  /** `a AND b OR d` is `(a AND b) OR d`. */
  lemma AndBindsTighterLeft(a: Q.Query, b: Q.Query, d: Q.Query)
    requires Q.IsComparison(a) && Q.IsComparison(b) && Q.IsComparison(d)
    requires WellFormed(a) && WellFormed(b) && WellFormed(d)
    ensures CompileFrom([L.WHERE] + RenderCond(a) + [L.AND] + RenderCond(b) + [L.OR] + RenderCond(d), 0, Q.Expr(None, None))
      == Ok(Q.Expr(Some(Q.Or(Q.And(a, b), d)), None))
  {
    var ra, rb, rd := RenderCond(a), RenderCond(b), RenderCond(d);
    var q := Q.Or(Q.And(a, b), d);
    assert RenderExpr(q) == (ra + [L.AND] + rb) + [L.OR] + rd by {
      assert RenderTerm(a) == ra && RenderTerm(d) == rd;
      assert RenderExpr(Q.And(a, b)) == RenderTerm(Q.And(a, b));
    }
    assert [L.WHERE] + RenderExpr(q) == [L.WHERE] + ra + [L.AND] + rb + [L.OR] + rd;
    CompileRendered(q);
  }

  /** `OR` groups to the left: `a OR b OR d` is `(a OR b) OR d`. */
  lemma OrGroupsLeft(a: Q.Query, b: Q.Query, d: Q.Query)
    requires Q.IsComparison(a) && Q.IsComparison(b) && Q.IsComparison(d)
    requires WellFormed(a) && WellFormed(b) && WellFormed(d)
    ensures CompileFrom([L.WHERE] + RenderCond(a) + [L.OR] + RenderCond(b) + [L.OR] + RenderCond(d), 0, Q.Expr(None, None))
      == Ok(Q.Expr(Some(Q.Or(Q.Or(a, b), d)), None))
  {
    var ra, rb, rd := RenderCond(a), RenderCond(b), RenderCond(d);
    var q := Q.Or(Q.Or(a, b), d);
    assert RenderExpr(q) == (ra + [L.OR] + rb) + [L.OR] + rd by {
      assert RenderExpr(a) == RenderTerm(a) == ra;
      assert RenderTerm(b) == rb && RenderTerm(d) == rd;
    }
    assert [L.WHERE] + RenderExpr(q) == [L.WHERE] + ra + [L.OR] + rb + [L.OR] + rd;
    CompileRendered(q);
  }

  /** `AND` groups to the left: `a AND b AND d` is `(a AND b) AND d`. */
  lemma AndGroupsLeft(a: Q.Query, b: Q.Query, d: Q.Query)
    requires Q.IsComparison(a) && Q.IsComparison(b) && Q.IsComparison(d)
    requires WellFormed(a) && WellFormed(b) && WellFormed(d)
    ensures CompileFrom([L.WHERE] + RenderCond(a) + [L.AND] + RenderCond(b) + [L.AND] + RenderCond(d), 0, Q.Expr(None, None))
      == Ok(Q.Expr(Some(Q.And(Q.And(a, b), d)), None))
  {
    var ra, rb, rd := RenderCond(a), RenderCond(b), RenderCond(d);
    var q := Q.And(Q.And(a, b), d);
    assert RenderExpr(q) == (ra + [L.AND] + rb) + [L.AND] + rd by {
      assert RenderTerm(a) == ra;
      assert RenderTerm(Q.And(a, b)) == ra + [L.AND] + rb;
      assert RenderTerm(q) == RenderTerm(Q.And(a, b)) + [L.AND] + rd;
      assert RenderExpr(q) == RenderTerm(q);
    }
    assert [L.WHERE] + RenderExpr(q) == [L.WHERE] + ra + [L.AND] + rb + [L.AND] + rd;
    CompileRendered(q);
  }


  /** A pattern is a comparison value only after `=`; after any other
      operator it is an unexpected token. */
  lemma RegexOnlyAfterEqual(name: string, op: Q.Op, pattern: string, rest: Tokens)
    ensures op != Q.OpEq ==>
      CompileFrom([L.WHERE, L.Identifier(name), OperatorToken(op), L.Regex(pattern)] + rest, 0, Q.Expr(None, None))
        == Err(L.UnexpectedToken(L.Regex(pattern)))
    ensures CompileFrom([L.WHERE, L.Identifier(name), L.Token.Equal, L.Regex(pattern)], 0, Q.Expr(None, None))
      == Ok(Q.Expr(Some(Q.Equal(L.Identifier(name), L.Regex(pattern))), None))
  {
    var ts := [L.WHERE, L.Identifier(name), OperatorToken(op), L.Regex(pattern)] + rest;
    if op != Q.OpEq {
      assert ts[0] == L.WHERE && ts[1] == L.Identifier(name) && ts[2] == OperatorToken(op) && ts[3] == L.Regex(pattern);
      var err := L.UnexpectedToken(L.Regex(pattern));
      assert CompileValue(ts, 3, false) == Err(err);
      assert CompileCondition(ts, 1) == Err(err);
      assert CompileTerm(ts, 1) == Err(err);
      assert CompileExpression(ts, 1) == Err(err);
    }
    var us := [L.WHERE, L.Identifier(name), L.Token.Equal, L.Regex(pattern)];
    var eq := Q.Equal(L.Identifier(name), L.Regex(pattern));
    assert CompileCondition(us, 1) == Ok(Parsed(eq, 4));
    assert TermLoop(us, 4, eq) == Ok(Parsed(eq, 4));
    assert CompileTerm(us, 1) == Ok(Parsed(eq, 4));
    assert ExprLoop(us, 4, eq) == Ok(Parsed(eq, 4));
    assert CompileExpression(us, 1) == Ok(Parsed(eq, 4));
  }

  /** The top level: no tokens is the empty query, a pattern alone is a
      pattern query, a pattern followed by anything is an error naming the
      next token, and so is a first token other than `WHERE` or a pattern. */
  lemma TopLevel(pattern: string, ts: Tokens)
    ensures CompileFrom([], 0, Q.Expr(None, None)) == Ok(Q.Expr(None, None))
    ensures CompileFrom([L.Regex(pattern)], 0, Q.Expr(None, None)) == Ok(Q.Regex(pattern))
    ensures ts != [] ==> CompileFrom([L.Regex(pattern)] + ts, 0, Q.Expr(None, None)) == Err(L.UnexpectedToken(ts[0]))
    ensures ts != [] && !ts[0].WHERE? && !ts[0].Regex? ==>
      CompileFrom(ts, 0, Q.Expr(None, None)) == Err(L.UnexpectedToken(ts[0]))
  {
    if ts != [] {
      assert ([L.Regex(pattern)] + ts)[1] == ts[0];
    }
  }

  /** Only spaces: no tokens. */
  lemma {:induction false} SpacesOnly(c: L.Compiler, s: string, i: nat)
    requires i <= |s| && forall k :: i <= k < |s| ==> s[k] == ' '
    ensures L.TokenizeFrom(c, s, i) == Returns(Ok([]))
    decreases |s| - i
  {
    if i < |s| {
      L.SpaceStep(c, s, i);
      SpacesOnly(c, s, i + 1);
    }
  }

  /** A program of spaces only compiles to the empty query, which accepts
      every record. */
  lemma BlankProgram(c: L.Compiler, program: string, rec: Q.Record)
    requires forall k :: 0 <= k < |program| ==> program[k] == ' '
    ensures Compile(c, program) == Returns(Ok(Q.Expr(None, None)))
    ensures Q.Accept(c.host, Compile(c, program).value.value, rec)
  {
    SpacesOnly(c, program, 0);
  }

  /** A parenthesis is closed by whatever token follows the expression in
      it, as long as that token does not continue the expression; at the end
      of the input it needs no closing at all. */
  lemma ParenClosedByAnyToken(ts: Tokens, p: nat, q: Q.Query, t: L.Token)
    requires WellFormed(q) && t != L.AND && t != L.OR
    ensures At(ts, p, [L.OpenBrace] + RenderExpr(q) + [t]) ==>
      CompileCondition(ts, p) == Ok(Parsed(q, p + |RenderExpr(q)| + 2))
    ensures At(ts, p, [L.OpenBrace] + RenderExpr(q)) && p + 1 + |RenderExpr(q)| == |ts| ==>
      CompileCondition(ts, p) == Ok(Parsed(q, |ts|))
  {
    var inner := RenderExpr(q);
    var e := p + 1 + |inner|;
    if At(ts, p, [L.OpenBrace] + inner + [t]) {
      AtSplit(ts, p, [L.OpenBrace] + inner, [t]);
      AtSplit(ts, p, [L.OpenBrace], inner);
      AtIndex(ts, p, [L.OpenBrace], 0);
      AtIndex(ts, e, [t], 0);
      ExprRoundTrip(ts, p + 1, q);
    }
    if At(ts, p, [L.OpenBrace] + inner) && e == |ts| {
      AtSplit(ts, p, [L.OpenBrace], inner);
      AtIndex(ts, p, [L.OpenBrace], 0);
      ExprRoundTrip(ts, p + 1, q);
    }
  }

  /** From text to tree: a spelled `WHERE` condition compiles to that
      condition. */
  lemma CompileSpelled(c: L.Compiler, q: Q.Query)
    requires WellFormed(q) && NumericOnAscii(c.host)
    requires forall k :: 0 <= k < |RenderExpr(q)| ==> L.Spellable(c, RenderExpr(q)[k])
    ensures Compile(c, L.SpellAll(c, [L.WHERE] + RenderExpr(q))) == Returns(Ok(Q.Expr(Some(q), None)))
  {
    var ts := [L.WHERE] + RenderExpr(q);
    forall k | 0 <= k < |ts| ensures L.Spellable(c, ts[k]) {
      if k > 0 {
        assert ts[k] == RenderExpr(q)[k - 1];
      }
    }
    L.TokenizeSpelled(c, ts);
    CompileRendered(q);
  }

  lemma SpellCons(c: L.Compiler, t: L.Token, rest: Tokens)
    ensures L.SpellAll(c, [t] + rest) == L.Spell(c, t) + " " + L.SpellAll(c, rest)
  {
    assert ([t] + rest)[1..] == rest;
  }

  /** One more token in front of a spelled sequence, for spelling known
      programs without unfolding `SpellAll` on a literal sequence. */
  lemma SpellFront(c: L.Compiler, t: L.Token, rest: Tokens, word: string, tail: string)
    requires L.Spell(c, t) == word && L.SpellAll(c, rest) == tail
    ensures L.SpellAll(c, [t] + rest) == word + " " + tail
  {
    SpellCons(c, t, rest);
  }

  /** The pieces of the lexer test's program, joined as `SpellAll` joins
      them. */
  lemma ExampleText()
    ensures "WHERE" + " " + ("name" + " " + ("=" + " " + ("/John/" + " " + ("AND" + " " + ("age" + " " + (">" + " " + "")))))) + "20"
      == "WHERE name = /John/ AND age > 20"
  {
  }

  lemma ExampleBack(c: L.Compiler)
    ensures L.SpellAll(c, [L.AND] + ([L.Identifier("age")] + ([L.Token.Greater] + [])))
      == "AND" + " " + ("age" + " " + (">" + " " + ""))
  {
    var t6: Tokens := [L.Token.Greater] + [];
    SpellFront(c, L.Token.Greater, [], ">", "");
    SpellFront(c, L.Identifier("age"), t6, "age", ">" + " " + "");
    SpellFront(c, L.AND, [L.Identifier("age")] + t6, "AND", "age" + " " + (">" + " " + ""));
  }

  lemma ExampleFront(c: L.Compiler, t3: Tokens, s3: string)
    requires L.SpellAll(c, t3) == s3
    ensures L.SpellAll(c, [L.Identifier("name")] + ([L.Token.Equal] + ([L.Regex("John")] + t3)))
      == "name" + " " + ("=" + " " + ("/John/" + " " + s3))
  {
    SpellFront(c, L.Regex("John"), t3, "/John/", s3);
    SpellFront(c, L.Token.Equal, [L.Regex("John")] + t3, "=", "/John/" + " " + s3);
    SpellFront(c, L.Identifier("name"), [L.Token.Equal] + ([L.Regex("John")] + t3), "name", "=" + " " + ("/John/" + " " + s3));
  }

  /** The lexer test's tokens, one at a time. */
  lemma ExampleTokens(ts: Tokens)
    requires ts == [L.WHERE, L.Identifier("name"), L.Token.Equal, L.Regex("John"), L.AND, L.Identifier("age"), L.Token.Greater]
    ensures ts == [L.WHERE] + ([L.Identifier("name")] + ([L.Token.Equal] + ([L.Regex("John")] + ([L.AND] + ([L.Identifier("age")] + ([L.Token.Greater] + []))))))
  {
  }

  lemma ExampleSpellable(c: L.Compiler, ts: Tokens)
    requires c.host.regexValid("John")
    requires ts == [L.WHERE, L.Identifier("name"), L.Token.Equal, L.Regex("John"), L.AND, L.Identifier("age"), L.Token.Greater]
    ensures forall k :: 0 <= k < |ts| ==> L.Spellable(c, ts[k])
  {
    assert L.Spellable(c, ts[1]) && L.Spellable(c, ts[5]);
  }

  /** The spelling of the lexer test's program, up to its final number. */
  lemma ExampleSpelling(c: L.Compiler, ts: Tokens)
    requires ts == [L.WHERE, L.Identifier("name"), L.Token.Equal, L.Regex("John"), L.AND, L.Identifier("age"), L.Token.Greater]
    ensures L.SpellAll(c, ts) + NatToDigits(20) == "WHERE name = /John/ AND age > 20"
  {
    assert NatToDigits(20) == "20" by {
      assert NatToDigits(2) == "2";
    }
    var t3: Tokens := [L.AND] + ([L.Identifier("age")] + ([L.Token.Greater] + []));
    var s3 := "AND" + " " + ("age" + " " + (">" + " " + ""));
    assert L.SpellAll(c, t3) == s3 by {
      ExampleBack(c);
    }
    var t0 := [L.Identifier("name")] + ([L.Token.Equal] + ([L.Regex("John")] + t3));
    var s0 := "name" + " " + ("=" + " " + ("/John/" + " " + s3));
    assert L.SpellAll(c, t0) == s0 by {
      ExampleFront(c, t3, s3);
    }
    assert L.SpellAll(c, [L.WHERE] + t0) == "WHERE" + " " + s0 by {
      SpellFront(c, L.WHERE, t0, "WHERE", s0);
    }
    assert L.SpellAll(c, [L.WHERE] + t0) + NatToDigits(20) == "WHERE name = /John/ AND age > 20" by {
      ExampleText();
    }
    ExampleTokens(ts);
  }

  /** The program of the lexer's own test: its fourth token is the pattern. */
  lemma RegexTokenExample(c: L.Compiler)
    requires NumericOnAscii(c.host) && c.host.regexValid("John")
    ensures L.Tokenize(c, "WHERE name = /John/ AND age > 20")
      == Returns(Ok([L.WHERE, L.Identifier("name"), L.Token.Equal, L.Regex("John"), L.AND, L.Identifier("age"), L.Token.Greater, L.Number(20)]))
  {
    var ts := [L.WHERE, L.Identifier("name"), L.Token.Equal, L.Regex("John"), L.AND, L.Identifier("age"), L.Token.Greater];
    var s := "WHERE name = /John/ AND age > 20";
    ExampleSpelling(c, ts);
    ExampleSpellable(c, ts);
    L.TokenizeSpelledThenNumber(c, s, 0, ts, 20);
    assert ts + [L.Number(20)] == [L.WHERE, L.Identifier("name"), L.Token.Equal, L.Regex("John"), L.AND, L.Identifier("age"), L.Token.Greater, L.Number(20)];
  }

  /** The same program compiles to the conjunction of its two comparisons. */
  lemma RegexProgramExample(c: L.Compiler)
    requires NumericOnAscii(c.host) && c.host.regexValid("John")
    ensures Compile(c, "WHERE name = /John/ AND age > 20")
      == Returns(Ok(Q.Expr(Some(Q.And(Q.Equal(L.Identifier("name"), L.Regex("John")), Q.Greater(L.Identifier("age"), L.Number(20)))), None)))
  {
    RegexTokenExample(c);
    RegexTokensCompile();
  }

  lemma RegexTokensCompile()
    ensures CompileFrom([L.WHERE, L.Identifier("name"), L.Token.Equal, L.Regex("John"), L.AND, L.Identifier("age"), L.Token.Greater, L.Number(20)], 0, Q.Expr(None, None))
      == Ok(Q.Expr(Some(Q.And(Q.Equal(L.Identifier("name"), L.Regex("John")), Q.Greater(L.Identifier("age"), L.Number(20)))), None))
  {
    var q := Q.And(Q.Equal(L.Identifier("name"), L.Regex("John")), Q.Greater(L.Identifier("age"), L.Number(20)));
    CompileRendered(q);
    assert [L.WHERE] + RenderExpr(q)
      == [L.WHERE, L.Identifier("name"), L.Token.Equal, L.Regex("John"), L.AND, L.Identifier("age"), L.Token.Greater, L.Number(20)];
  }
}
