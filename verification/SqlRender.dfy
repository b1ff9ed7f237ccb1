/** Token lists for expressions, and the proof that the parser reads them back. */
module SqlRender {
  import opened Common
  import opened Text
  import opened SqlLexer
  import opened SqlParser

  // ------------------------------------------------------------------
  // Conditions
  // ------------------------------------------------------------------

  function LiteralToken(v: Literal): Token {
    match v
    case StrLit(s) => Str(s)
    case IntLit(n) => Number(FormatInt(n))
    case FloatLit(text) => Number(text)
  }

  function LiteralTokens(vs: seq<Literal>): seq<Token> {
    if vs == [] then []
    else if |vs| == 1 then [LiteralToken(vs[0])]
    else [LiteralToken(vs[0]), Punct(',')] + LiteralTokens(vs[1..])
  }

  function CondTokens(c: Cond): seq<Token> {
    match c
    case Compare(f, op, v) => [Ident(f), Operator(op), LiteralToken(v)]
    case In(f, vs) => [Ident(f), Keyword("in"), Punct('(')] + LiteralTokens(vs) + [Punct(')')]
    case Like(f, p) => [Ident(f), Keyword("like"), Str(p + "%")]
  }

  /** Literals a number or string token can carry. */
  predicate GoodLiteral(v: Literal) {
    match v
    case StrLit(_) => true
    case IntLit(n) => 0 <= n <= MAX_INT64
    case FloatLit(text) => '.' in text && Dots(text) == 1
  }

  /** Conditions the grammar can produce. */
  predicate GoodCond(c: Cond) {
    match c
    case Compare(_, _, v) => GoodLiteral(v)
    case In(_, vs) => vs != [] && forall v :: v in vs ==> GoodLiteral(v)
    case Like(_, p) => '%' !in p && '_' !in p
  }

  lemma {:induction false} LiteralReads(v: Literal)
    requires GoodLiteral(v)
    ensures LiteralOf(LiteralToken(v)) == Ok(v)
  {
    if v.IntLit? {
      NatOfDigits(v.n);
      assert '.' !in Digits(v.n);
    }
  }

  lemma {:induction false} Push(t: Token, ts: seq<Token>)
    requires Ends(ts)
    ensures Ends([t] + ts) && ([t] + ts)[0] == t && ([t] + ts)[1..] == ts
  {
  }

  lemma {:induction false} LiteralHeadReads(v: Literal, rest: seq<Token>)
    requires GoodLiteral(v) && Ends(rest)
    ensures Ends([LiteralToken(v)] + rest)
    ensures PLiteral([LiteralToken(v)] + rest) == Ok((v, rest))
  {
    LiteralReads(v);
    Push(LiteralToken(v), rest);
  }

  lemma {:induction false} LiteralsStep(v: Literal, more: seq<Token>, vs: seq<Literal>, rest: seq<Token>)
    requires GoodLiteral(v) && Ends(more) && PLiterals(more) == Ok((vs, rest))
    ensures Ends([LiteralToken(v), Punct(',')] + more)
    ensures PLiterals([LiteralToken(v), Punct(',')] + more) == Ok(([v] + vs, rest))
  {
    hide PLiteral, GoodLiteral, LiteralToken, Remains;
    Push(Punct(','), more);
    LiteralHeadReads(v, [Punct(',')] + more);
    assert [LiteralToken(v), Punct(',')] + more == [LiteralToken(v)] + ([Punct(',')] + more);
  }

  lemma {:induction false} LiteralsRead(vs: seq<Literal>, rest: seq<Token>)
    requires vs != [] && (forall v :: v in vs ==> GoodLiteral(v)) && Ends(rest) && rest[0] != Punct(',')
    ensures Ends(LiteralTokens(vs) + rest)
    ensures PLiterals(LiteralTokens(vs) + rest) == Ok((vs, rest))
  {
    hide PLiteral, GoodLiteral, LiteralToken, Remains;
    if |vs| == 1 {
      LiteralHeadReads(vs[0], rest);
      assert LiteralTokens(vs) == [LiteralToken(vs[0])] && vs == [vs[0]];
    } else {
      hide PLiterals, Ends;
      LiteralsRead(vs[1..], rest);
      LiteralsStep(vs[0], LiteralTokens(vs[1..]) + rest, vs[1..], rest);
      LiteralsSplit(vs, rest);
    }
  }

  lemma {:induction false} LiteralsSplit(vs: seq<Literal>, rest: seq<Token>)
    requires |vs| > 1
    ensures LiteralTokens(vs) + rest == [LiteralToken(vs[0]), Punct(',')] + (LiteralTokens(vs[1..]) + rest)
    ensures vs == [vs[0]] + vs[1..]
  {
    hide LiteralToken;
  }

  lemma {:induction false} CompareReads(f: string, op: string, v: Literal, rest: seq<Token>)
    requires GoodLiteral(v) && Ends(rest)
    ensures Ends(CondTokens(Compare(f, op, v)) + rest)
    ensures PCond(CondTokens(Compare(f, op, v)) + rest) == Ok((Compare(f, op, v), rest))
  {
    hide PLiteral, GoodLiteral, LiteralToken, Remains;
    LiteralHeadReads(v, rest);
    var ts := [Ident(f), Operator(op)] + ([LiteralToken(v)] + rest);
    assert CondTokens(Compare(f, op, v)) + rest == ts;
    assert ts[2..] == [LiteralToken(v)] + rest;
  }

  lemma {:induction false} InReads(f: string, vs: seq<Literal>, rest: seq<Token>)
    requires GoodCond(In(f, vs)) && Ends(rest)
    ensures Ends(CondTokens(In(f, vs)) + rest)
    ensures PCond(CondTokens(In(f, vs)) + rest) == Ok((In(f, vs), rest))
  {
    hide PLiterals, GoodLiteral, LiteralTokens, Remains;
    var tail := [Punct(')')] + rest;
    Push(Punct(')'), rest);
    LiteralsRead(vs, tail);
    var us := LiteralTokens(vs) + tail;
    Push(Punct('('), us);
    var ts := [Ident(f), Keyword("in")] + ([Punct('(')] + us);
    assert CondTokens(In(f, vs)) + rest == ts;
    assert ts[2..] == [Punct('(')] + us;
  }

  lemma {:induction false} LikeReads(f: string, p: string, rest: seq<Token>)
    requires GoodCond(Like(f, p)) && Ends(rest)
    ensures Ends(CondTokens(Like(f, p)) + rest)
    ensures PCond(CondTokens(Like(f, p)) + rest) == Ok((Like(f, p), rest))
  {
    var ts := [Ident(f), Keyword("like"), Str(p + "%")] + rest;
    assert (p + "%")[..|p|] == p;
    assert ts[3..] == rest;
  }

  lemma {:induction false} CondReads(c: Cond, rest: seq<Token>)
    requires GoodCond(c) && Ends(rest)
    ensures Ends(CondTokens(c) + rest) && (CondTokens(c) + rest)[0].Ident?
    ensures PCond(CondTokens(c) + rest) == Ok((c, rest))
  {
    hide PCond;
    match c
    case Compare(f, op, v) => CompareReads(f, op, v, rest);
    case In(f, vs) => InReads(f, vs, rest);
    case Like(f, p) => LikeReads(f, p, rest);
  }

  // ------------------------------------------------------------------
  // Trees with the parentheses that are written out
  // ------------------------------------------------------------------

  /** A NOT in front of parentheses is something the printer writes and the grammar does not have. */
  datatype Tree =
    | Atom(cond: Cond)
    | Node(op: Op, left: Tree, right: Tree)
    | Paren(inner: Tree)
    | Not(excluded: Tree)

  /** The expression, whatever its parentheses; what a NOT stands for is no expression, and not looked at. */
  function Strip(t: Tree): Expr {
    match t
    case Atom(c) => Leaf(c)
    case Node(op, l, r) => Bin(op, Strip(l), Strip(r))
    case Paren(u) => Strip(u)
    case Not(u) => Strip(u)
  }

  function OpToken(op: Op): Token { Keyword(if op == AndOp then "and" else "or") }

  function Tokens(t: Tree): seq<Token> {
    match t
    case Atom(c) => CondTokens(c)
    case Node(op, l, r) => Tokens(l) + [OpToken(op)] + Tokens(r)
    case Paren(u) => [Punct('(')] + Tokens(u) + [Punct(')')]
    case Not(u) => [Ident("NOT"), Punct('(')] + Tokens(u) + [Punct(')')]
  }

  /** How tightly the outermost construct binds: OR, then AND, then a condition or parentheses. */
  function Level(t: Tree): nat {
    if t.Node? then Prio(t.op) else 2
  }

  /** Parentheses stand wherever the grammar needs them: both connectives associate to the left. */
  predicate WellFormed(t: Tree) {
    match t
    case Atom(c) => GoodCond(c)
    case Node(op, l, r) => WellFormed(l) && WellFormed(r) && Level(l) >= Prio(op) && Level(r) > Prio(op)
    case Paren(u) => WellFormed(u)
    case Not(_) => false
  }

  /** The connective that follows, if any, does not bind more tightly than level k. */
  predicate FollowedLoosely(rest: seq<Token>, k: nat)
    requires Ends(rest)
  {
    Connective(rest[0]).None? || Prio(Connective(rest[0]).value) <= k
  }

  /** Parsing the tokens of a tree amounts to having read the tree and carrying on with what follows. */
  lemma {:induction false} TreeReads(t: Tree, minPrio: nat, rest: seq<Token>)
    requires WellFormed(t) && Level(t) >= minPrio && Ends(rest) && FollowedLoosely(rest, Level(t))
    ensures Ends(Tokens(t) + rest)
    ensures PExpr(Tokens(t) + rest, minPrio) == PLoop(Strip(t), rest, minPrio)
    decreases t, 1
  {
    hide PCond, CondTokens, PLoop, Remains;
    match t
    case Atom(c) =>
      CondReads(c, rest);
    case Node(_, _, _) =>
      NodeReads(t, minPrio, rest);
    case Paren(u) =>
      ParenReads(u, rest);
  }

  lemma {:induction false} NodeReads(t: Tree, minPrio: nat, rest: seq<Token>)
    requires t.Node? && WellFormed(t) && Level(t) >= minPrio && Ends(rest) && FollowedLoosely(rest, Level(t))
    ensures Ends(Tokens(t) + rest)
    ensures PExpr(Tokens(t) + rest, minPrio) == PLoop(Strip(t), rest, minPrio)
    decreases t, 0
  {
    hide PExpr, PPrimary, Tokens, GoodCond, Remains;
    var op, more := t.op, Tokens(t.right) + rest;
    TreeReads(t.right, Prio(op) + 1, rest);
    Push(OpToken(op), more);
    TreeReads(t.left, minPrio, [OpToken(op)] + more);
    NodeTokens(t, rest);
  }

  lemma {:induction false} NodeTokens(t: Tree, rest: seq<Token>)
    requires t.Node?
    ensures Tokens(t) + rest == Tokens(t.left) + ([OpToken(t.op)] + (Tokens(t.right) + rest))
  {
  }

  lemma {:induction false} ParenReads(u: Tree, rest: seq<Token>)
    requires WellFormed(u) && Ends(rest)
    ensures Ends(Tokens(Paren(u)) + rest)
    ensures PPrimary(Tokens(Paren(u)) + rest) == Ok((Strip(u), rest))
    ensures forall k :: PExpr(Tokens(Paren(u)) + rest, k) == PLoop(Strip(u), rest, k)
    decreases u, 2
  {
    hide Remains, PExpr, PPrimary, PLoop, Tokens, Strip;
    var tail := [Punct(')')] + rest;
    Push(Punct(')'), rest);
    TreeReads(u, 0, tail);
    LoopStops(Strip(u), tail);
    ParenStep(Tokens(u) + tail, Strip(u), rest);
    ParenTokens(u, rest);
  }

  lemma {:induction false} ParenTokens(u: Tree, rest: seq<Token>)
    ensures Tokens(Paren(u)) + rest == [Punct('(')] + (Tokens(u) + ([Punct(')')] + rest))
  {
  }

  lemma {:induction false} LoopStops(e: Expr, ts: seq<Token>)
    requires Ends(ts) && Connective(ts[0]).None?
    ensures PLoop(e, ts, 0) == Ok((e, ts))
  {
  }

  /** What stands between parentheses. */
  lemma {:induction false} ParenStep(us: seq<Token>, e: Expr, rest: seq<Token>)
    requires Ends(us) && Ends(rest) && PExpr(us, 0) == Ok((e, [Punct(')')] + rest))
    ensures Ends([Punct('(')] + us) && PPrimary([Punct('(')] + us) == Ok((e, rest))
    ensures forall k :: PExpr([Punct('(')] + us, k) == PLoop(e, rest, k)
  {
    Push(Punct('('), us);
    Push(Punct(')'), rest);
    var ts := [Punct('(')] + us;
    assert PPrimary(ts) == Ok((e, rest));
    hide PPrimary, PLoop, Remains;
  }

  /** A well-formed token list parses to exactly the tree it was written from. */
  lemma {:induction false} TreeReadsBack(t: Tree, rest: seq<Token>)
    requires WellFormed(t) && Ends(rest) && Connective(rest[0]).None?
    ensures Ends(Tokens(t) + rest)
    ensures PExpr(Tokens(t) + rest, 0) == Ok((Strip(t), rest))
  {
    TreeReads(t, 0, rest);
  }

  // ------------------------------------------------------------------
  // Rendering with exactly the parentheses precedence requires
  // ------------------------------------------------------------------

  function Guard(t: Tree, k: nat): Tree {
    if Level(t) >= k then t else Paren(t)
  }

  function Render(e: Expr): Tree {
    match e
    case Leaf(c) => Atom(c)
    case Bin(op, l, r) => Node(op, Guard(Render(l), Prio(op)), Guard(Render(r), Prio(op) + 1))
  }

  predicate GoodLeaves(e: Expr) {
    match e
    case Leaf(c) => GoodCond(c)
    case Bin(_, l, r) => GoodLeaves(l) && GoodLeaves(r)
  }

  lemma {:induction false} RenderIsWellFormed(e: Expr)
    requires GoodLeaves(e)
    ensures WellFormed(Render(e)) && Strip(Render(e)) == e
  {
    if e.Bin? {
      RenderIsWellFormed(e.left);
      RenderIsWellFormed(e.right);
    }
  }

  /** Every expression, written with the parentheses precedence requires, parses back to itself. */
  lemma {:induction false} RenderedExprParsesBack(e: Expr)
    requires GoodLeaves(e)
    ensures Ends(Tokens(Render(e)) + [Eof])
    ensures PExpr(Tokens(Render(e)) + [Eof], 0) == Ok((e, [Eof]))
  {
    RenderIsWellFormed(e);
    TreeReadsBack(Render(e), [Eof]);
  }
}
