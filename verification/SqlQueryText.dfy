/** The text printed for a query, whatever its clauses, and what the parser makes of it (pkg/sqldsl/sqldsl.go). */
module SqlQueryText {
  import opened Common
  import opened Text
  import opened SqlLexer
  import opened SqlParser
  import opened SqlRender
  import opened SqlDsl
  import opened SqlLexText

  // ------------------------------------------------------------------
  // Trees as they are written down, and as they are read
  // ------------------------------------------------------------------

  /** The tree whose tokens are those of a, AND, and those of b. A top-level OR on either side is not
      protected by parentheses, so it ends up outermost. */
  function JoinAnd(a: Tree, b: Tree): Tree
    decreases b, a
  {
    if b.Node? && b.op == OrOp then Node(OrOp, JoinAnd(a, b.left), b.right)
    else if a.Node? && a.op == OrOp then Node(OrOp, a.left, JoinAnd(a.right, b))
    else if b.Node? then Node(AndOp, JoinAnd(a, b.left), b.right)
    else Node(AndOp, a, b)
  }

  /** The printer writes AND between its operands without parentheses; this is what its text says. */
  function Regrouped(t: Tree): Tree {
    match t
    case Atom(_) => t
    case Node(AndOp, l, r) => JoinAnd(Regrouped(l), Regrouped(r))
    case Node(OrOp, l, r) => Node(OrOp, Regrouped(l), Regrouped(r))
    case Paren(u) => Paren(Regrouped(u))
    case Not(u) => Not(u)
  }

  predicate IsOr(t: Tree) { t.Node? && t.op == OrOp }

  /** OR stands between parentheses only. */
  predicate Written(t: Tree) {
    match t
    case Atom(c) => GoodCond(c)
    case Node(op, l, r) => Written(l) && Written(r) && (op == OrOp ==> (l.Paren? || IsOr(l)) && r.Paren?)
    case Paren(u) => Written(u)
    case Not(_) => true
  }

  /** An OR that no parentheses protect. */
  predicate BareOr(t: Tree) { t.Node? && (t.op == OrOp || BareOr(t.left) || BareOr(t.right)) }

  predicate HasNot(t: Tree) {
    match t
    case Atom(_) => false
    case Node(_, l, r) => HasNot(l) || HasNot(r)
    case Paren(u) => HasNot(u)
    case Not(_) => true
  }

  /** Well-formed, but for what stands behind a NOT. */
  predicate Grouped(t: Tree) {
    match t
    case Atom(c) => GoodCond(c)
    case Node(op, l, r) => Grouped(l) && Grouped(r) && Level(l) >= Prio(op) && Level(r) > Prio(op)
    case Paren(u) => Grouped(u)
    case Not(_) => true
  }

  lemma {:induction false} WithoutNot(t: Tree)
    requires Grouped(t) && !HasNot(t)
    ensures WellFormed(t)
  {
    match t
    case Atom(_) =>
    case Node(_, l, r) =>
      WithoutNot(l);
      WithoutNot(r);
    case Paren(u) => WithoutNot(u);
  }

  lemma {:induction false} JoinAndGrouped(a: Tree, b: Tree)
    requires Grouped(a) && Grouped(b)
    ensures Grouped(JoinAnd(a, b))
    ensures Level(JoinAnd(a, b)) == if Level(a) == 0 || Level(b) == 0 then 0 else 1
    decreases b, a
  {
    if b.Node? && b.op == OrOp {
      JoinAndGrouped(a, b.left);
    } else if a.Node? && a.op == OrOp {
      JoinAndGrouped(a.right, b);
    } else if b.Node? {
      JoinAndGrouped(a, b.left);
    }
  }

  lemma {:induction false} JoinAndTokens(a: Tree, b: Tree)
    ensures Tokens(JoinAnd(a, b)) == Tokens(a) + [OpToken(AndOp)] + Tokens(b)
    ensures HasNot(JoinAnd(a, b)) == (HasNot(a) || HasNot(b))
    decreases b, a
  {
    hide CondTokens, OpToken;
    if b.Node? && b.op == OrOp {
      JoinAndTokens(a, b.left);
    } else if a.Node? && a.op == OrOp {
      JoinAndTokens(a.right, b);
    } else if b.Node? {
      JoinAndTokens(a, b.left);
    }
  }

  lemma {:induction false} RegroupedFits(t: Tree)
    requires Written(t)
    ensures Grouped(Regrouped(t)) && (Level(Regrouped(t)) == 0 <==> BareOr(t))
    ensures (t.Paren? ==> Regrouped(t).Paren?) && (IsOr(t) ==> IsOr(Regrouped(t)))
  {
    match t
    case Atom(_) =>
    case Node(op, l, r) =>
      RegroupedFits(l);
      RegroupedFits(r);
      if op == AndOp {
        JoinAndGrouped(Regrouped(l), Regrouped(r));
        JoinAndLevel(Regrouped(l), Regrouped(r));
      }
    case Paren(u) => RegroupedFits(u);
    case Not(_) =>
  }

  lemma {:induction false} JoinAndLevel(a: Tree, b: Tree)
    ensures JoinAnd(a, b).Node?
  {
  }

  lemma {:induction false} RegroupedTokens(t: Tree)
    ensures Tokens(Regrouped(t)) == Tokens(t) && HasNot(Regrouped(t)) == HasNot(t)
  {
    match t
    case Atom(_) =>
    case Node(op, l, r) =>
      RegroupedTokens(l);
      RegroupedTokens(r);
      if op == AndOp {
        JoinAndTokens(Regrouped(l), Regrouped(r));
      }
    case Paren(u) => RegroupedTokens(u);
    case Not(_) =>
  }

  // ------------------------------------------------------------------
  // What is written for a query
  // ------------------------------------------------------------------

  function BoundTrees(f: string, bs: seq<Bound>): seq<Tree> {
    if bs == [] then []
    else
      (if bs[0].op == OtherKey then [] else [Atom(Compare(f, RangeSymbol(bs[0].op), bs[0].val))])
      + BoundTrees(f, bs[1..])
  }

  function Conjunction(us: seq<Tree>): Tree
    requires us != []
  {
    if |us| == 1 then us[0] else Node(AndOp, us[0], Conjunction(us[1..]))
  }

  function Disjunction(us: seq<Tree>): Tree
    requires us != []
  {
    if |us| == 1 then us[0] else Node(OrOp, Disjunction(us[..|us|-1]), us[|us|-1])
  }

  function All(us: seq<Tree>): Option<Tree> { if us == [] then None else Some(Conjunction(us)) }

  function Any(us: seq<Tree>): seq<Tree> { if us == [] then [] else [Disjunction(us)] }

  function Parens(us: seq<Tree>): seq<Tree> { if us == [] then [] else [Paren(us[0])] + Parens(us[1..]) }

  function Nots(us: seq<Tree>): seq<Tree> { if us == [] then [] else [Not(us[0])] + Nots(us[1..]) }

  /** The tree of what is printed for the query, if anything is. */
  function Said(q: Query): Option<Tree>
    decreases q
  {
    match q
    case MatchAll => None
    case Match(f, v) => Some(Atom(Compare(f, "=", v)))
    case Term(f, v) => Some(Atom(Compare(f, "=", v)))
    case Terms(f, vs) => Some(Atom(In(f, vs)))
    case InRange(f, bs) => All(BoundTrees(f, bs))
    case MatchPhrasePrefix(_, _) => None
    case Bool(filter, must, should, mustNot) =>
      All(SaidAll(filter) + SaidAll(must) + Any(Parens(SaidAll(should))) + Nots(SaidAll(mustNot)))
  }

  function SaidAll(qs: seq<Query>): seq<Tree>
    decreases qs
  {
    if qs == [] then []
    else (match Said(qs[0]) case None => [] case Some(u) => [u]) + SaidAll(qs[1..])
  }

  /** Names that survive printing, and literals with an exact text. */
  predicate Sayable(q: Query)
    decreases q
  {
    match q
    case MatchAll => true
    case Match(f, v) => Relexable(f) && ExactLiteral(v)
    case Term(f, v) => Relexable(f) && ExactLiteral(v)
    case Terms(f, vs) => Relexable(f) && vs != [] && forall v :: v in vs ==> ExactLiteral(v)
    case InRange(f, bs) => Relexable(f) && forall b :: b in bs && b.op != OtherKey ==> ExactLiteral(b.val)
    case MatchPhrasePrefix(_, _) => true
    case Bool(filter, must, should, mustNot) =>
      && (forall c :: c in filter ==> Sayable(c)) && (forall c :: c in must ==> Sayable(c))
      && (forall c :: c in should ==> Sayable(c)) && (forall c :: c in mustNot ==> Sayable(c))
  }

  // ------------------------------------------------------------------
  // Its tokens
  // ------------------------------------------------------------------

  /** Wherever the text is followed by a boundary, it has the tokens of the tree. */
  ghost predicate Says(p: string, t: Tree) {
    p != "" && forall r, ts :: Lexes(r, ts) && AtBoundary(r) ==> Lexes(p + r, Tokens(t) + ts)
  }

  ghost predicate AllSay(ps: seq<string>, us: seq<Tree>) {
    |ps| == |us| && forall i :: 0 <= i < |ps| ==> Says(ps[i], us[i])
  }

  lemma {:induction false} SaysThen(p: string, t: Tree, r: string, ts: seq<Token>)
    requires Says(p, t) && Lexes(r, ts) && AtBoundary(r)
    ensures Lexes(p + r, Tokens(t) + ts)
  {
    hide Lexes, AtBoundary, Tokens;
  }

  /** A comparison as both term and range clauses print it. */
  lemma {:induction false} CompareSays(f: string, op: string, v: Literal)
    requires Relexable(f) && PlainOp(op) && ExactLiteral(v)
    ensures Says(QuoteIdent(f) + " " + op + " " + QuoteLiteral(v), Atom(Compare(f, op, v)))
  {
    hide Lexes, QuoteIdent, QuoteLiteral, LiteralToken, ExactLiteral, Relexable;
    var p := QuoteIdent(f) + " " + op + " " + QuoteLiteral(v);
    forall r, ts | Lexes(r, ts) && AtBoundary(r) ensures Lexes(p + r, Tokens(Atom(Compare(f, op, v))) + ts) {
      var s1, t1 := QuoteLiteral(v) + r, [LiteralToken(v)] + ts;
      LexesLiteral(v, r, ts);
      LexesSpace(s1, t1);
      LexesOperator(op, " " + s1, t1);
      var s2, t2 := op + (" " + s1), [Operator(op)] + t1;
      LexesSpace(s2, t2);
      LexesIdent(f, " " + s2, t2);
      assert p + r == QuoteIdent(f) + (" " + s2);
      assert CondTokens(Compare(f, op, v)) + ts == [Ident(f)] + t2;
    }
  }

  lemma {:induction false} InSays(f: string, vs: seq<Literal>)
    requires Relexable(f) && vs != [] && forall v :: v in vs ==> ExactLiteral(v)
    ensures Says(QuoteIdent(f) + " IN (" + JoinLiterals(vs) + ")", Atom(In(f, vs)))
  {
    hide Lexes, QuoteIdent, JoinLiterals, LiteralTokens, ExactLiteral, Relexable;
    var p := QuoteIdent(f) + " IN (" + JoinLiterals(vs) + ")";
    forall r, ts | Lexes(r, ts) && AtBoundary(r) ensures Lexes(p + r, Tokens(Atom(In(f, vs))) + ts) {
      LexesPunct(')', r, ts);
      var s1, t1 := JoinLiterals(vs) + ([')'] + r), LiteralTokens(vs) + ([Punct(')')] + ts);
      LexesLiterals(vs, [')'] + r, [Punct(')')] + ts);
      LexesPunct('(', s1, t1);
      var s2, t2 := ['('] + s1, [Punct('(')] + t1;
      LexesSpace(s2, t2);
      LexesKeyword("IN", "in", " " + s2, t2);
      var s3, t3 := "IN" + (" " + s2), [Keyword("in")] + t2;
      LexesSpace(s3, t3);
      LexesIdent(f, " " + s3, t3);
      assert p + r == QuoteIdent(f) + (" " + s3);
      assert CondTokens(In(f, vs)) + ts == [Ident(f)] + t3;
    }
  }

  function OpWord(op: Op): string { if op == AndOp then "AND" else "OR" }

  lemma {:induction false} OpKeyword(op: Op, r: string, ts: seq<Token>)
    requires Lexes(r, ts) && AtBoundary(r)
    ensures Lexes(OpWord(op) + r, [OpToken(op)] + ts)
  {
    LexesKeyword("AND", "and", r, ts);
    LexesKeyword("OR", "or", r, ts);
  }

  lemma {:induction false} TwoSay(p: string, u: Tree, op: Op, q: string, v: Tree)
    requires Says(p, u) && Says(q, v)
    ensures Says(p + (" " + OpWord(op) + " ") + q, Node(op, u, v))
  {
    var text := p + (" " + OpWord(op) + " ") + q;
    hide Lexes, Says, OpWord, OpToken;
    forall r, ts | Lexes(r, ts) && AtBoundary(r) ensures Lexes(text + r, Tokens(Node(op, u, v)) + ts) {
      var s1, t1 := q + r, Tokens(v) + ts;
      SaysThen(q, v, r, ts);
      LexesSpace(s1, t1);
      OpKeyword(op, " " + s1, t1);
      var s2, t2 := OpWord(op) + (" " + s1), [OpToken(op)] + t1;
      LexesSpace(s2, t2);
      SaysThen(p, u, " " + s2, t2);
      FiveTexts(p, OpWord(op), q, r);
      NodeTokens(Node(op, u, v), ts);
    }
    IsSaying(text, Node(op, u, v));
  }

  lemma {:induction false} FiveTexts(p: string, w: string, q: string, r: string)
    ensures p + (" " + w + " ") + q + r == p + (" " + (w + (" " + (q + r))))
  {
  }

  lemma {:induction false} IsSaying(p: string, t: Tree)
    requires p != "" && forall r, ts :: Lexes(r, ts) && AtBoundary(r) ==> Lexes(p + r, Tokens(t) + ts)
    ensures Says(p, t)
  {
    hide Lexes, AtBoundary, Tokens;
  }

  lemma {:induction false} ParenSays(p: string, u: Tree)
    requires Says(p, u)
    ensures Says("(" + p + ")", Paren(u))
  {
    var text := "(" + p + ")";
    hide Lexes, Says;
    forall r, ts | Lexes(r, ts) && AtBoundary(r) ensures Lexes(text + r, Tokens(Paren(u)) + ts) {
      LexesPunct(')', r, ts);
      var s1, t1 := p + ([')'] + r), Tokens(u) + ([Punct(')')] + ts);
      SaysThen(p, u, [')'] + r, [Punct(')')] + ts);
      LexesPunct('(', s1, t1);
      assert text + r == ['('] + s1;
      ParenTokens(u, ts);
    }
    IsSaying(text, Paren(u));
  }

  /** NOT is a word like any other to the lexer. */
  lemma {:induction false} LexesNot(r: string, ts: seq<Token>)
    requires Lexes(r, ts) && AtBoundary(r)
    ensures Lexes("NOT" + r, [Ident("NOT")] + ts)
  {
    assert IsIdentStart('N') && Lower("NOT") == "not";
    LexesWord("NOT", r, ts);
  }

  lemma {:induction false} NotSays(p: string, u: Tree)
    requires Says(p, u)
    ensures Says("NOT (" + p + ")", Not(u))
  {
    var text := "NOT (" + p + ")";
    hide Lexes, Says;
    ParenSays(p, u);
    forall r, ts | Lexes(r, ts) && AtBoundary(r) ensures Lexes(text + r, Tokens(Not(u)) + ts) {
      SaysThen("(" + p + ")", Paren(u), r, ts);
      var s1, t1 := "(" + p + ")" + r, Tokens(Paren(u)) + ts;
      LexesSpace(s1, t1);
      LexesNot(" " + s1, t1);
      NotTokens(u, ts);
      assert text + r == "NOT" + (" " + s1);
    }
    IsSaying(text, Not(u));
  }

  lemma {:induction false} NotTokens(u: Tree, ts: seq<Token>)
    ensures Tokens(Not(u)) + ts == [Ident("NOT")] + (Tokens(Paren(u)) + ts)
  {
  }

  // ------------------------------------------------------------------
  // Lists of clauses
  // ------------------------------------------------------------------

  lemma {:induction false} AndSays(ps: seq<string>, us: seq<Tree>)
    requires ps != [] && AllSay(ps, us)
    ensures Says(Join(ps, " AND "), Conjunction(us))
  {
    hide Says;
    assert Says(ps[0], us[0]);
    if |ps| > 1 {
      assert " " + OpWord(AndOp) + " " == " AND ";
      AndSays(ps[1..], us[1..]);
      TwoSay(ps[0], us[0], AndOp, Join(ps[1..], " AND "), Conjunction(us[1..]));
    }
  }

  lemma {:induction false} JoinSnoc(ps: seq<string>, p: string, sep: string)
    requires ps != []
    ensures Join(ps + [p], sep) == Join(ps, sep) + sep + p
  {
    assert (ps + [p])[1..] == ps[1..] + [p];
    if |ps| == 1 {
      assert ps[1..] + [p] == [p];
    } else {
      JoinSnoc(ps[1..], p, sep);
    }
  }

  lemma {:induction false} OrSays(ps: seq<string>, us: seq<Tree>)
    requires ps != [] && AllSay(ps, us)
    ensures Says(Join(ps, " OR "), Disjunction(us))
  {
    hide Says;
    assert Says(ps[0], us[0]);
    if |ps| > 1 {
      assert " " + OpWord(OrOp) + " " == " OR ";
      var n := |ps| - 1;
      OrSays(ps[..n], us[..n]);
      assert ps == ps[..n] + [ps[n]];
      JoinSnoc(ps[..n], ps[n], " OR ");
      TwoSay(Join(ps[..n], " OR "), Disjunction(us[..n]), OrOp, ps[n], us[n]);
    }
  }

  lemma {:induction false} BothSay(ps: seq<string>, us: seq<Tree>, qs: seq<string>, vs: seq<Tree>)
    requires AllSay(ps, us) && AllSay(qs, vs)
    ensures AllSay(ps + qs, us + vs)
  {
    hide Says;
  }

  lemma {:induction false} OneMoreSays(p: string, u: Tree, ps: seq<string>, us: seq<Tree>)
    requires Says(p, u) && AllSay(ps, us)
    ensures AllSay([p] + ps, [u] + us)
  {
    hide Says;
  }

  /** What is printed for a query has the tokens of its tree, and is nothing if there is none. */
  ghost predicate Printed(text: string, t: Option<Tree>) { if t.None? then text == "" else Says(text, t.value) }

  lemma {:induction false} BoundsSay(f: string, bs: seq<Bound>)
    requires Relexable(f) && forall b :: b in bs && b.op != OtherKey ==> ExactLiteral(b.val)
    ensures AllSay(RangeParts(f, bs), BoundTrees(f, bs))
  {
    hide Says, BoundText, QuoteIdent, QuoteLiteral, Relexable, ExactLiteral;
    if bs != [] {
      BoundsSay(f, bs[1..]);
      if bs[0].op != OtherKey {
        BoundSays(f, bs[0]);
        OneMoreSays(BoundText(f, bs[0]), Atom(Compare(f, RangeSymbol(bs[0].op), bs[0].val)), RangeParts(f, bs[1..]),
                    BoundTrees(f, bs[1..]));
      }
    }
  }

  lemma {:induction false} BoundSays(f: string, b: Bound)
    requires Relexable(f) && b.op != OtherKey && ExactLiteral(b.val)
    ensures Says(BoundText(f, b), Atom(Compare(f, RangeSymbol(b.op), b.val)))
  {
    CompareSays(f, RangeSymbol(b.op), b.val);
    hide Says, QuoteIdent, QuoteLiteral, Relexable, ExactLiteral;
  }

  /** The three ways the clauses of a list are printed. */
  lemma {:induction false} PartsSay(qs: seq<Query>)
    requires forall c :: c in qs ==> Sayable(c)
    ensures AllSay(WhereParts(qs, "", ""), SaidAll(qs))
    ensures AllSay(WhereParts(qs, "(", ")"), Parens(SaidAll(qs)))
    ensures AllSay(WhereParts(qs, "NOT (", ")"), Nots(SaidAll(qs)))
    decreases qs
  {
    hide Says, Sayable, QueryToWhere, Said;
    if qs != [] {
      var q, rest := qs[0], qs[1..];
      QuerySays(q);
      PartsSay(rest);
      if Said(q).Some? {
        var p, u, us := QueryToWhere(q), Said(q).value, SaidAll(rest);
        ParenSays(p, u);
        NotSays(p, u);
        SaysSomething(p, u);
        assert "" + p + "" == p;
        OneMoreSays(p, u, WhereParts(rest, "", ""), us);
        OneMoreSays("(" + p + ")", Paren(u), WhereParts(rest, "(", ")"), Parens(us));
        OneMoreSays("NOT (" + p + ")", Not(u), WhereParts(rest, "NOT (", ")"), Nots(us));
        ListsOf(u, us);
        assert SaidAll(qs) == [u] + us;
      } else {
        assert SaidAll(qs) == SaidAll(rest);
      }
    }
  }

  lemma {:induction false} SaysSomething(p: string, u: Tree)
    requires Says(p, u)
    ensures p != ""
  {
  }

  lemma {:induction false} ListsOf(u: Tree, us: seq<Tree>)
    ensures Parens([u] + us) == [Paren(u)] + Parens(us) && Nots([u] + us) == [Not(u)] + Nots(us)
  {
    assert ([u] + us)[1..] == us;
  }

  /** For every query: its text has the tokens of its tree. */
  lemma {:induction false} QuerySays(q: Query)
    requires Sayable(q)
    ensures Printed(QueryToWhere(q), Said(q))
    decreases q
  {
    hide Says, QuoteIdent, QuoteLiteral, JoinLiterals, Relexable, ExactLiteral;
    match q
    case MatchAll =>
    case Match(f, v) => EqualsSays(f, v);
    case Term(f, v) => EqualsSays(f, v);
    case Terms(f, vs) => InSays(f, vs);
    case InRange(f, bs) =>
      BoundsSay(f, bs);
      if BoundTrees(f, bs) != [] {
        AndSays(RangeParts(f, bs), BoundTrees(f, bs));
      }
    case MatchPhrasePrefix(_, _) =>
    case Bool(filter, must, should, mustNot) =>
      PartsSay(filter);
      PartsSay(must);
      PartsSay(should);
      PartsSay(mustNot);
      BoolSays(filter, must, should, mustNot);
  }

  lemma {:induction false} EqualsSays(f: string, v: Literal)
    requires Relexable(f) && ExactLiteral(v)
    ensures Says(QuoteIdent(f) + " = " + QuoteLiteral(v), Atom(Compare(f, "=", v)))
  {
    CompareSays(f, "=", v);
    hide Says, QuoteIdent, QuoteLiteral, Relexable, ExactLiteral;
    assert QuoteIdent(f) + " " + "=" + " " == QuoteIdent(f) + " = ";
  }

  lemma {:induction false} BoolSays(filter: seq<Query>, must: seq<Query>, should: seq<Query>, mustNot: seq<Query>)
    requires AllSay(WhereParts(filter, "", ""), SaidAll(filter)) && AllSay(WhereParts(must, "", ""), SaidAll(must))
    requires AllSay(WhereParts(should, "(", ")"), Parens(SaidAll(should)))
    requires AllSay(WhereParts(mustNot, "NOT (", ")"), Nots(SaidAll(mustNot)))
    ensures Printed(QueryToWhere(Bool(filter, must, should, mustNot)), Said(Bool(filter, must, should, mustNot)))
  {
    hide Says, WhereParts, SaidAll;
    var alternatives, us := WhereParts(should, "(", ")"), Parens(SaidAll(should));
    var either := if alternatives == [] then [] else [Join(alternatives, " OR ")];
    assert AllSay(either, Any(us)) by {
      if alternatives != [] {
        OrSays(alternatives, us);
      }
    }
    BothSay(WhereParts(filter, "", ""), SaidAll(filter), WhereParts(must, "", ""), SaidAll(must));
    BothSay(WhereParts(filter, "", "") + WhereParts(must, "", ""), SaidAll(filter) + SaidAll(must), either, Any(us));
    BothSay(WhereParts(filter, "", "") + WhereParts(must, "", "") + either, SaidAll(filter) + SaidAll(must) + Any(us),
            WhereParts(mustNot, "NOT (", ")"), Nots(SaidAll(mustNot)));
    hide AllSay, Join, Conjunction, Disjunction, Parens, Nots, Any;
    var ps := WhereParts(filter, "", "") + WhereParts(must, "", "") + either + WhereParts(mustNot, "NOT (", ")");
    var all := SaidAll(filter) + SaidAll(must) + Any(us) + Nots(SaidAll(mustNot));
    assert AllSay(ps, all);
    JoinedSay(ps, all);
  }

  lemma {:induction false} JoinedSay(ps: seq<string>, us: seq<Tree>)
    requires AllSay(ps, us)
    ensures Printed(Join(ps, " AND "), All(us))
  {
    hide Says;
    if ps != [] {
      AndSays(ps, us);
    }
  }

  // ------------------------------------------------------------------
  // What the parser makes of them
  // ------------------------------------------------------------------

  lemma {:induction false} EndsStill(ts: seq<Token>, rest: seq<Token>)
    requires Ends(rest)
    ensures Ends(ts + rest)
  {
  }

  lemma {:induction false} NotStopsHere(u: Tree, minPrio: nat, rest: seq<Token>)
    requires Ends(rest)
    ensures Ends(Tokens(Not(u)) + rest) && PExpr(Tokens(Not(u)) + rest, minPrio) == Err(ExpectOperator)
  {
    var ts := Tokens(Not(u)) + rest;
    assert ts[0] == Ident("NOT") && ts[1] == Punct('(');
    hide Tokens, Remains, PLoop;
    assert PPrimary(ts) == Err(ExpectOperator);
  }

  lemma {:induction false} ParenStops(us: seq<Token>, minPrio: nat)
    requires Ends(us) && PExpr(us, 0) == Err(ExpectOperator)
    ensures Ends([Punct('(')] + us) && PExpr([Punct('(')] + us, minPrio) == Err(ExpectOperator)
  {
    Push(Punct('('), us);
    hide Remains, PLoop;
    assert PPrimary([Punct('(')] + us) == Err(ExpectOperator);
  }

  lemma {:induction false} LoopStopsAt(e: Expr, op: Op, right: seq<Token>, minPrio: nat)
    requires Prio(op) >= minPrio && Ends(right) && PExpr(right, Prio(op) + 1) == Err(ExpectOperator)
    ensures Ends([OpToken(op)] + right) && PLoop(e, [OpToken(op)] + right, minPrio) == Err(ExpectOperator)
  {
    hide PExpr, Remains, Connective, OpToken;
    OpConnects(op);
    Push(OpToken(op), right);
  }

  lemma {:induction false} OpConnects(op: Op)
    ensures Connective(OpToken(op)) == Some(op)
  {
  }

  /** The left operand reads, the right one stops. */
  lemma {:induction false} SecondStops(l: Tree, op: Op, right: seq<Token>, minPrio: nat)
    requires WellFormed(l) && Level(l) >= Prio(op) >= minPrio
    requires Ends(right) && PExpr(right, Prio(op) + 1) == Err(ExpectOperator)
    ensures Ends([OpToken(op)] + right) && PExpr(Tokens(l) + ([OpToken(op)] + right), minPrio) == Err(ExpectOperator)
  {
    hide PExpr, PLoop, Remains, Tokens, WellFormed, Strip;
    Push(OpToken(op), right);
    TreeReads(l, minPrio, [OpToken(op)] + right);
    LoopStopsAt(Strip(l), op, right, minPrio);
  }

  /** Wherever a NOT stands and whatever it excludes, the parser takes it for a field and misses the operator behind
      it. */
  lemma {:induction false} NegationStops(t: Tree, minPrio: nat, rest: seq<Token>)
    requires Grouped(t) && Level(t) >= minPrio && Ends(rest) && HasNot(t)
    ensures Ends(Tokens(t) + rest) && PExpr(Tokens(t) + rest, minPrio) == Err(ExpectOperator)
    decreases t
  {
    hide PExpr, Tokens, Ends;
    EndsStill(Tokens(t), rest);
    match t
    case Node(op, l, r) =>
      var right := Tokens(r) + rest;
      NodeTokens(t, rest);
      if HasNot(l) {
        EndsStill(Tokens(r), rest);
        EndsStill([OpToken(op)], right);
        NegationStops(l, minPrio, [OpToken(op)] + right);
      } else {
        NegationStops(r, Prio(op) + 1, rest);
        WithoutNot(l);
        hide HasNot, Grouped;
        SecondStops(l, op, right, minPrio);
      }
    case Paren(u) =>
      EndsStill([Punct(')')], rest);
      NegationStops(u, 0, [Punct(')')] + rest);
      ParenTokens(u, rest);
      ParenStops(Tokens(u) + ([Punct(')')] + rest), minPrio);
    case Not(u) => NotStopsHere(u, minPrio, rest);
  }

  /** Nothing is printed for the query. */
  predicate Silent(q: Query)
    decreases q
  {
    match q
    case MatchAll => true
    case InRange(_, bs) => forall b :: b in bs ==> b.op == OtherKey
    case MatchPhrasePrefix(_, _) => true
    case Bool(filter, must, should, mustNot) =>
      && (forall c :: c in filter ==> Silent(c)) && (forall c :: c in must ==> Silent(c))
      && (forall c :: c in should ==> Silent(c)) && (forall c :: c in mustNot ==> Silent(c))
    case _ => false
  }

  /** Some must_not clause is printed. */
  predicate Excludes(q: Query)
    decreases q
  {
    q.Bool? &&
    (|| (exists c :: c in q.filter && Excludes(c)) || (exists c :: c in q.must && Excludes(c))
     || (exists c :: c in q.should && Excludes(c)) || (exists c :: c in q.mustNot && !Silent(c)))
  }

  lemma {:induction false} SilentBounds(f: string, bs: seq<Bound>)
    ensures BoundTrees(f, bs) == [] <==> forall b :: b in bs ==> b.op == OtherKey
  {
    if bs != [] {
      SilentBounds(f, bs[1..]);
      assert bs == [bs[0]] + bs[1..];
    }
  }

  lemma {:induction false} SilentIsUnsaid(q: Query)
    ensures Said(q).None? <==> Silent(q)
    decreases q
  {
    match q
    case InRange(f, bs) => SilentBounds(f, bs);
    case Bool(filter, must, should, mustNot) =>
      SilentListIsUnsaid(filter);
      SilentListIsUnsaid(must);
      SilentListIsUnsaid(should);
      SilentListIsUnsaid(mustNot);
      hide SaidAll, Conjunction, Disjunction;
      assert Parens(SaidAll(should)) == [] <==> SaidAll(should) == [];
      assert Nots(SaidAll(mustNot)) == [] <==> SaidAll(mustNot) == [];
    case _ =>
  }

  lemma {:induction false} SilentListIsUnsaid(qs: seq<Query>)
    ensures SaidAll(qs) == [] <==> forall c :: c in qs ==> Silent(c)
    decreases qs
  {
    hide Said, Silent;
    if qs != [] {
      SilentIsUnsaid(qs[0]);
      SilentListIsUnsaid(qs[1..]);
      assert qs == [qs[0]] + qs[1..];
    }
  }

  predicate AnyNot(us: seq<Tree>) { exists i :: 0 <= i < |us| && HasNot(us[i]) }

  predicate AllWritten(us: seq<Tree>) { forall i :: 0 <= i < |us| ==> Written(us[i]) }

  lemma {:induction false} ConjunctionShape(us: seq<Tree>)
    requires us != [] && AllWritten(us)
    ensures Written(Conjunction(us)) && HasNot(Conjunction(us)) == AnyNot(us)
  {
    hide HasNot;
    if |us| > 1 {
      ConjunctionShape(us[1..]);
      assert us == [us[0]] + us[1..];
      AnyNotConcat([us[0]], us[1..]);
      NodeHasNot(AndOp, us[0], Conjunction(us[1..]));
    }
  }

  lemma {:induction false} NodeHasNot(op: Op, l: Tree, r: Tree)
    ensures HasNot(Node(op, l, r)) == (HasNot(l) || HasNot(r))
  {
  }

  lemma {:induction false} AnyNotConcat(us: seq<Tree>, vs: seq<Tree>)
    ensures AnyNot(us + vs) == (AnyNot(us) || AnyNot(vs))
    ensures |us| == 1 ==> AnyNot(us) == HasNot(us[0])
    ensures AllWritten(us) && AllWritten(vs) ==> AllWritten(us + vs)
  {
    hide HasNot, Written;
    if AnyNot(us) {
      var i :| 0 <= i < |us| && HasNot(us[i]);
      assert HasNot((us + vs)[i]);
    }
    if AnyNot(vs) {
      var i :| 0 <= i < |vs| && HasNot(vs[i]);
      assert HasNot((us + vs)[|us| + i]);
    }
  }

  lemma {:induction false} DisjunctionShape(us: seq<Tree>)
    requires us != [] && AllWritten(us) && forall i :: 0 <= i < |us| ==> us[i].Paren?
    ensures var t := Disjunction(us); Written(t) && HasNot(t) == AnyNot(us) && (t.Paren? || IsOr(t))
  {
    hide HasNot;
    if |us| > 1 {
      var n := |us| - 1;
      DisjunctionShape(us[..n]);
      assert us == us[..n] + [us[n]];
      AnyNotConcat(us[..n], [us[n]]);
      NodeHasNot(OrOp, Disjunction(us[..n]), us[n]);
    }
  }

  lemma {:induction false} WrappedShape(us: seq<Tree>)
    requires AllWritten(us)
    ensures AllWritten(Parens(us)) && AnyNot(Parens(us)) == AnyNot(us) && |Parens(us)| == |us| == |Nots(us)|
    ensures forall i :: 0 <= i < |us| ==> Parens(us)[i].Paren?
    ensures AllWritten(Nots(us)) && (AnyNot(Nots(us)) <==> us != [])
  {
    if us != [] {
      WrappedShape(us[1..]);
      assert us == [us[0]] + us[1..];
      AnyNotConcat([us[0]], us[1..]);
      AnyNotConcat([Paren(us[0])], Parens(us[1..]));
      assert HasNot(Nots(us)[0]);
    }
  }

  lemma {:induction false} BoundsShape(f: string, bs: seq<Bound>)
    requires forall b :: b in bs && b.op != OtherKey ==> ExactLiteral(b.val)
    ensures AllWritten(BoundTrees(f, bs)) && !AnyNot(BoundTrees(f, bs))
  {
    if bs != [] {
      BoundsShape(f, bs[1..]);
      assert bs == [bs[0]] + bs[1..];
      if bs[0].op != OtherKey {
        AnyNotConcat([Atom(Compare(f, RangeSymbol(bs[0].op), bs[0].val))], BoundTrees(f, bs[1..]));
      }
    }
  }

  lemma {:induction false} ListShape(qs: seq<Query>)
    requires forall c :: c in qs ==> Sayable(c)
    ensures var us := SaidAll(qs);
      && AllWritten(us)
      && (AnyNot(us) <==> exists c :: c in qs && Excludes(c))
    decreases qs
  {
    hide Sayable, Said, Silent, Excludes, Written, HasNot;
    if qs != [] {
      var q, us := qs[0], SaidAll(qs[1..]);
      ListShape(qs[1..]);
      QueryShape(q);
      assert qs == [q] + qs[1..];
      if Said(q).Some? {
        AnyNotConcat([Said(q).value], us);
        assert SaidAll(qs) == [Said(q).value] + us;
      } else {
        assert SaidAll(qs) == us;
      }
    }
  }

  lemma {:induction false} QueryShape(q: Query)
    requires Sayable(q)
    ensures Said(q).Some? ==> Written(Said(q).value) && HasNot(Said(q).value) == Excludes(q)
    ensures Said(q).None? ==> !Excludes(q)
    decreases q
  {
    match q
    case InRange(f, bs) =>
      BoundsShape(f, bs);
      if BoundTrees(f, bs) != [] {
        ConjunctionShape(BoundTrees(f, bs));
      }
    case Bool(filter, must, should, mustNot) =>
      ListShape(filter);
      ListShape(must);
      ListShape(should);
      ListShape(mustNot);
      SilentListIsUnsaid(mustNot);
      hide Sayable;
      BoolShape(filter, must, should, mustNot);
    case _ =>
  }

  lemma {:induction false} AnyShape(us: seq<Tree>)
    requires AllWritten(us)
    ensures var either := Any(Parens(us));
      AllWritten(either) && AnyNot(either) == AnyNot(us) && (either == [] <==> us == [])
  {
    hide HasNot, Written;
    WrappedShape(us);
    if us != [] {
      var t := Disjunction(Parens(us));
      DisjunctionShape(Parens(us));
      hide AnyNot;
      AnyNotConcat([t], []);
      assert [t] + [] == [t];
      assert !AnyNot([]) by { NoneNot(); }
    }
  }

  lemma {:induction false} NoneNot()
    ensures !AnyNot([])
  {
  }

  lemma {:induction false} BoolShape(filter: seq<Query>, must: seq<Query>, should: seq<Query>, mustNot: seq<Query>)
    requires AllWritten(SaidAll(filter)) && AllWritten(SaidAll(must))
    requires AllWritten(SaidAll(should)) && AllWritten(SaidAll(mustNot))
    ensures var t := Said(Bool(filter, must, should, mustNot));
      && (t.None? <==>
          SaidAll(filter) == [] && SaidAll(must) == [] && SaidAll(should) == [] && SaidAll(mustNot) == [])
      && (t.Some? ==> Written(t.value))
      && (t.Some? ==> (HasNot(t.value) <==> AnyNot(SaidAll(filter)) || AnyNot(SaidAll(must)) || AnyNot(SaidAll(should))
                                            || SaidAll(mustNot) != []))
  {
    var a, b, c, d := SaidAll(filter), SaidAll(must), SaidAll(should), SaidAll(mustNot);
    hide SaidAll, Written, HasNot;
    var either := Any(Parens(c));
    AnyShape(c);
    WrappedShape(d);
    hide Parens, Nots, Any, Disjunction;
    AnyNotConcat(a, b);
    AnyNotConcat(a + b, either);
    AnyNotConcat(a + b + either, Nots(d));
    var all := a + b + either + Nots(d);
    if all != [] {
      ConjunctionShape(all);
    }
    hide AnyNot, AllWritten, Conjunction;
    assert Said(Bool(filter, must, should, mustNot)) == All(all);
  }

  /** What is read back of a query that is printed. */
  function ReadQuery(q: Query): Expr
    requires Said(q).Some?
  {
    Strip(Regrouped(Said(q).value))
  }

  lemma {:induction false} SaidReads(t: Tree, rest: seq<Token>)
    requires Written(t) && Ends(rest) && Connective(rest[0]).None?
    ensures Ends(Tokens(t) + rest)
    ensures PExpr(Tokens(t) + rest, 0) == if HasNot(t) then Err(ExpectOperator) else Ok((Strip(Regrouped(t)), rest))
  {
    hide PExpr, Tokens, HasNot, Strip, Written, Connective;
    RegroupedFits(t);
    RegroupedTokens(t);
    if HasNot(t) {
      NegationStops(Regrouped(t), 0, rest);
    } else {
      WithoutNot(Regrouped(t));
      TreeReadsBack(Regrouped(t), rest);
    }
  }

  /** For every query over names that survive printing and literals with an exact text: its text is empty if and only if
      it is silent; otherwise it is read back if and only if no must_not clause is printed. */
  lemma {:induction false} QueryReadsExactlyWhen(q: Query)
    requires Sayable(q)
    ensures QueryToWhere(q) == "" <==> Silent(q)
    ensures !Silent(q) ==>
      var lexed := Lex(QueryToWhere(q), 0);
      && lexed.Ok? && Ends(lexed.value) && Said(q).Some?
      && PExpr(lexed.value, 0) == if Excludes(q) then Err(ExpectOperator) else Ok((ReadQuery(q), [Eof]))
  {
    QuerySays(q);
    QueryShape(q);
    SilentIsUnsaid(q);
    LexesEmpty();
    hide QueryToWhere, Silent, Excludes, Said, Sayable, PExpr, Tokens, HasNot, Written;
    if Said(q).Some? {
      var t := Said(q).value;
      SaysSomething(QueryToWhere(q), t);
      SaysThen(QueryToWhere(q), t, "", [Eof]);
      assert QueryToWhere(q) + "" == QueryToWhere(q);
      SaidReads(t, [Eof]);
    }
  }
}
