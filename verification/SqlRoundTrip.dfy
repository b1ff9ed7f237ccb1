/** Condition -> query DSL -> text -> tokens -> condition (pkg/sqldsl/sqldsl.go). */
module SqlRoundTrip {
  import opened Common
  import opened Text
  import opened SqlLexer
  import opened SqlParser
  import opened SqlRender
  import opened SqlDsl
  import opened SqlLexText
  import opened SqlQueryText

  // ------------------------------------------------------------------
  // The tree a printed condition really denotes
  // ------------------------------------------------------------------

  /** How the printer writes the compiled condition: AND joins the bare texts, OR parenthesises both sides. */
  function WrittenTree(e: Expr): Tree {
    match e
    case Leaf(c) => Atom(c)
    case Bin(AndOp, l, r) => Node(AndOp, WrittenTree(l), WrittenTree(r))
    case Bin(OrOp, l, r) => Node(OrOp, Paren(WrittenTree(l)), Paren(WrittenTree(r)))
  }

  function TextTree(e: Expr): Tree { Regrouped(WrittenTree(e)) }

  /** The condition that printing and reading back yields. */
  function Reparsed(e: Expr): Expr { Strip(TextTree(e)) }

  lemma {:induction false} WrittenTreeIsWritten(e: Expr)
    requires GoodLeaves(e)
    ensures Written(WrittenTree(e)) && !HasNot(WrittenTree(e)) && Strip(WrittenTree(e)) == e
    ensures OrFree(e) <==> !BareOr(WrittenTree(e))
  {
    if e.Bin? {
      WrittenTreeIsWritten(e.left);
      WrittenTreeIsWritten(e.right);
    }
  }

  predicate OrFree(e: Expr) {
    match e
    case Leaf(_) => true
    case Bin(op, l, r) => op == AndOp && OrFree(l) && OrFree(r)
  }

  /** No OR anywhere beneath an AND. */
  predicate NoOrUnderAnd(e: Expr) {
    match e
    case Leaf(_) => true
    case Bin(AndOp, l, r) => OrFree(l) && OrFree(r)
    case Bin(OrOp, l, r) => NoOrUnderAnd(l) && NoOrUnderAnd(r)
  }

  // ------------------------------------------------------------------
  // The text of a compiled condition
  // ------------------------------------------------------------------

  /** Conditions that are printed: =, <, <=, >, >= and IN over names and literals with an exact text. */
  predicate Printable(c: Cond) {
    match c
    case Compare(f, op, v) => Relexable(f) && PlainOp(op) && ExactLiteral(v)
    case In(f, vs) => Relexable(f) && vs != [] && forall v :: v in vs ==> ExactLiteral(v)
    case Like(_, _) => false
  }

  predicate AllPrintable(e: Expr) {
    match e
    case Leaf(c) => Printable(c)
    case Bin(_, l, r) => AllPrintable(l) && AllPrintable(r)
  }

  predicate IsNegation(c: Cond) { c.Compare? && c.op == "!=" }

  /** Also !=, which is printed as NOT, and LIKE, which is printed as nothing. */
  predicate Writable(c: Cond) {
    c.Like? || Printable(if IsNegation(c) then Compare(c.field, "=", c.val) else c)
  }

  predicate AllWritable(e: Expr) {
    match e
    case Leaf(c) => Writable(c)
    case Bin(_, l, r) => AllWritable(l) && AllWritable(r)
  }

  function WhereText(e: Expr): string { QueryToWhere(ExprToQuery(e)) }

  /** Some condition is a !=. */
  predicate Negates(e: Expr) {
    match e
    case Leaf(c) => IsNegation(c)
    case Bin(_, l, r) => Negates(l) || Negates(r)
  }

  predicate OnlyLikes(e: Expr) {
    match e
    case Leaf(c) => c.Like?
    case Bin(_, l, r) => OnlyLikes(l) && OnlyLikes(r)
  }

  /** The tree that is written, if anything is: what is printed as nothing drops out. */
  function Shown(e: Expr): Option<Tree> { Said(ExprToQuery(e)) }

  function Optional(t: Option<Tree>): seq<Tree> { if t.None? then [] else [t.value] }

  lemma {:induction false} SaidPair(l: Query, r: Query)
    ensures SaidAll([l, r]) == Optional(Said(l)) + Optional(Said(r))
  {
    hide Said;
    assert [l, r][1..] == [r] && [r][1..] == [];
    assert SaidAll([r]) == Optional(Said(r)) + SaidAll([]);
  }

  /** What is written for both operands of an AND. */
  function BothShown(a: Option<Tree>, b: Option<Tree>): Option<Tree> {
    if a.None? then b else if b.None? then a else Some(Node(AndOp, a.value, b.value))
  }

  function EitherShown(a: Option<Tree>, b: Option<Tree>): Option<Tree> {
    if a.None? && b.None? then None
    else if a.None? then Some(Paren(b.value))
    else if b.None? then Some(Paren(a.value))
    else Some(Node(OrOp, Paren(a.value), Paren(b.value)))
  }

  lemma {:induction false} OneOrTwo(a: Tree, b: Tree)
    ensures Conjunction([a, b]) == Node(AndOp, a, b) && Disjunction([a, b]) == Node(OrOp, a, b)
    ensures Parens([a, b]) == [Paren(a), Paren(b)] && Parens([a]) == [Paren(a)]
  {
    assert [a, b][1..] == [b] && [a, b][..1] == [a] && [a][1..] == [] && [b][1..] == [];
    assert Parens([b]) == [Paren(b)] + Parens([]) && Parens([a, b]) == [Paren(a)] + Parens([b]);
  }

  lemma {:induction false} ShownAnd(l: Expr, r: Expr)
    ensures Shown(Bin(AndOp, l, r)) == BothShown(Shown(l), Shown(r))
  {
    var a, b := ExprToQuery(l), ExprToQuery(r);
    SaidPair(a, b);
    var us := SaidAll([a, b]);
    assert us + [] + Any(Parens([])) + Nots([]) == us;
    assert Said(Bool([a, b], [], [], [])) == All(us);
    hide Said, SaidAll, Conjunction;
    if Said(a).Some? && Said(b).Some? {
      OneOrTwo(Said(a).value, Said(b).value);
      assert us == [Said(a).value, Said(b).value];
    } else if us != [] {
      OneAlone(us);
    }
  }

  lemma {:induction false} OneAlone(us: seq<Tree>)
    requires |us| == 1
    ensures Conjunction(us) == Disjunction(us) == us[0] && Parens(us) == [Paren(us[0])]
  {
  }

  lemma {:induction false} ShownOr(l: Expr, r: Expr)
    ensures Shown(Bin(OrOp, l, r)) == EitherShown(Shown(l), Shown(r))
  {
    var a, b := ExprToQuery(l), ExprToQuery(r);
    SaidPair(a, b);
    var us := SaidAll([a, b]);
    assert [] + [] + Any(Parens(us)) + Nots([]) == Any(Parens(us));
    assert Said(Bool([], [], [a, b], [])) == All(Any(Parens(us)));
    hide Said, SaidAll, Conjunction, Disjunction;
    if us != [] {
      OneAlone(Any(Parens(us)));
      if Said(a).Some? && Said(b).Some? {
        OneOrTwo(Said(a).value, Said(b).value);
        OneOrTwo(Paren(Said(a).value), Paren(Said(b).value));
        assert us == [Said(a).value, Said(b).value];
      } else {
        OneAlone(us);
        OneAlone(Parens(us));
      }
    }
  }

  lemma {:induction false} ShownLeaf(c: Cond)
    requires Writable(c)
    ensures Shown(Leaf(c)) ==
      if c.Like? then None else if IsNegation(c) then Some(Not(Atom(Compare(c.field, "=", c.val)))) else Some(Atom(c))
  {
    if IsNegation(c) {
      var q := Term(c.field, c.val);
      assert [q][1..] == [];
      assert SaidAll([q]) == [Atom(Compare(c.field, "=", c.val))];
      assert [] + [] + Any(Parens([])) + Nots(SaidAll([q])) == [Not(Atom(Compare(c.field, "=", c.val)))];
    } else if c.Compare? && c.op != "=" {
      var b := ExprToQuery(Leaf(c)).bounds[0];
      assert RangeSymbol(b.op) == c.op && [b][1..] == [];
      assert BoundTrees(c.field, [b]) == [Atom(c)];
    }
  }

  lemma {:induction false} ShownTreeOf(e: Expr)
    requires AllPrintable(e)
    ensures Shown(e) == Some(WrittenTree(e)) && AllWritable(e)
  {
    match e
    case Leaf(c) => ShownLeaf(c);
    case Bin(op, l, r) =>
      ShownTreeOf(l);
      ShownTreeOf(r);
      ShownAnd(l, r);
      ShownOr(l, r);
  }

  /** A condition that can be written compiles to a query that can be said. */
  lemma {:induction false} WritableIsSayable(e: Expr)
    requires AllWritable(e)
    ensures Sayable(ExprToQuery(e))
    ensures Silent(ExprToQuery(e)) == OnlyLikes(e) && Excludes(ExprToQuery(e)) == Negates(e)
  {
    hide Relexable, ExactLiteral;
    match e
    case Leaf(c) =>
      if IsNegation(c) {
        assert Term(c.field, c.val) in ExprToQuery(e).mustNot;
      } else if c.Compare? && c.op != "=" {
        assert ExprToQuery(e).bounds[0] in ExprToQuery(e).bounds;
      }
    case Bin(op, l, r) =>
      WritableIsSayable(l);
      WritableIsSayable(r);
      PairIs(ExprToQuery(l), ExprToQuery(r));
  }

  lemma {:induction false} PairIs(l: Query, r: Query)
    requires Sayable(l) && Sayable(r)
    ensures var both, either := Bool([l, r], [], [], []), Bool([], [], [l, r], []);
      && Sayable(both) && Sayable(either)
      && Silent(both) == Silent(either) == (Silent(l) && Silent(r))
      && Excludes(both) == Excludes(either) == (Excludes(l) || Excludes(r))
  {
    assert l in [l, r] && r in [l, r];
  }

  /** The printed condition has the tokens of what is written of it, and is empty if nothing is. */
  lemma {:induction false} LexesShown(e: Expr, r: string, ts: seq<Token>)
    requires AllWritable(e) && Lexes(r, ts) && AtBoundary(r)
    ensures Shown(e).None? ==> WhereText(e) == ""
    ensures Shown(e).Some? ==> WhereText(e) != "" && Lexes(WhereText(e) + r, Tokens(Shown(e).value) + ts)
  {
    hide Said, Says, Sayable, Silent, Excludes, QueryToWhere;
    WritableIsSayable(e);
    QuerySays(ExprToQuery(e));
    if Shown(e).Some? {
      SaysSomething(WhereText(e), Shown(e).value);
      SaysThen(WhereText(e), Shown(e).value, r, ts);
    }
  }

  /** The printed condition lexes to the tokens of its text tree. */
  lemma {:induction false} LexesWhere(e: Expr, r: string, ts: seq<Token>)
    requires AllPrintable(e) && Lexes(r, ts) && AtBoundary(r)
    ensures WhereText(e) != ""
    ensures Lexes(WhereText(e) + r, Tokens(TextTree(e)) + ts)
  {
    ShownTreeOf(e);
    RegroupedTokens(WrittenTree(e));
    LexesShown(e, r, ts);
  }

  lemma {:induction false} PrintableIsGood(e: Expr)
    requires AllPrintable(e)
    ensures GoodLeaves(e)
  {
    if e.Bin? {
      PrintableIsGood(e.left);
      PrintableIsGood(e.right);
    }
  }

  /** Printing a compiled condition, tokenizing the text and parsing the tokens succeeds for every printable
      condition, and yields the tree the text denotes. */
  lemma {:induction false} TextReadsBack(e: Expr)
    requires AllPrintable(e)
    ensures Lex(WhereText(e), 0) == Ok(Tokens(TextTree(e)) + [Eof])
    ensures Ends(Tokens(TextTree(e)) + [Eof])
    ensures PExpr(Tokens(TextTree(e)) + [Eof], 0) == Ok((Reparsed(e), [Eof]))
  {
    PrintableIsGood(e);
    WrittenTreeIsWritten(e);
    LexesEmpty();
    LexesWhere(e, "", [Eof]);
    assert WhereText(e) + "" == WhereText(e);
    RegroupedTokens(WrittenTree(e));
    SaidReads(WrittenTree(e), [Eof]);
  }

  /** The condition that is read back, of what is printed. */
  function Read(e: Expr): Expr
    requires Shown(e).Some?
  {
    ReadQuery(ExprToQuery(e))
  }

  /** For every condition over names and literals with an exact text, with !=, LIKE, AND and OR wherever they stand:
      the printed text is empty if and only if all conditions are LIKE; otherwise it reads back if and only if none is
      a !=. */
  lemma {:induction false} TextReadsExactlyWhen(e: Expr)
    requires AllWritable(e)
    ensures WhereText(e) == "" <==> OnlyLikes(e)
    ensures !OnlyLikes(e) ==>
      var lexed := Lex(WhereText(e), 0);
      && lexed.Ok? && Ends(lexed.value) && Shown(e).Some?
      && PExpr(lexed.value, 0) == if Negates(e) then Err(ExpectOperator) else Ok((Read(e), [Eof]))
  {
    WritableIsSayable(e);
    hide Said, Sayable, Silent, Excludes, QueryToWhere, ReadQuery, PExpr;
    QueryReadsExactlyWhen(ExprToQuery(e));
  }

  /** What is written of a condition. */
  lemma {:induction false} ShownShape(e: Expr)
    requires AllWritable(e)
    ensures Shown(e).None? <==> OnlyLikes(e)
    ensures Shown(e).None? ==> !Negates(e)
    ensures Shown(e).Some? ==> Written(Shown(e).value) && HasNot(Shown(e).value) == Negates(e)
  {
    WritableIsSayable(e);
    hide Said, Sayable, Silent, Excludes;
    QueryShape(ExprToQuery(e));
    SilentIsUnsaid(ExprToQuery(e));
  }
}
