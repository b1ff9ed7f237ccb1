/** When printing a compiled condition and reading it back keeps its meaning (pkg/sqldsl/sqldsl.go). */
module SqlMeaning {
  import opened Common
  import opened Text
  import opened SqlLexer
  import opened SqlParser
  import opened SqlRender
  import opened SqlDsl
  import opened SqlLexText
  import opened SqlQueryText
  import opened SqlRoundTrip

  // ------------------------------------------------------------------
  // Truth of an expression, given which of its conditions hold
  // ------------------------------------------------------------------

  predicate Eval(e: Expr, holding: set<Cond>) {
    match e
    case Leaf(c) => c in holding
    case Bin(AndOp, l, r) => Eval(l, holding) && Eval(r, holding)
    case Bin(OrOp, l, r) => Eval(l, holding) || Eval(r, holding)
  }

  function Leaves(e: Expr): (s: set<Cond>)
    ensures s != {}
  {
    match e
    case Leaf(c) => assert c in {c}; {c}
    case Bin(_, l, r) => Leaves(l) + Leaves(r)
  }

  lemma {:induction false} AllLeavesHold(e: Expr, holding: set<Cond>)
    requires Leaves(e) <= holding
    ensures Eval(e, holding)
  {
    if e.Bin? {
      AllLeavesHold(e.left, holding);
      AllLeavesHold(e.right, holding);
    }
  }

  lemma {:induction false} NoLeafHolds(e: Expr, holding: set<Cond>)
    requires Leaves(e) !! holding
    ensures !Eval(e, holding)
  {
    if e.Bin? {
      NoLeafHolds(e.left, holding);
      NoLeafHolds(e.right, holding);
    }
  }

  lemma {:induction false} OnlyLeavesMatter(e: Expr, s: set<Cond>, t: set<Cond>)
    requires s * Leaves(e) == t * Leaves(e)
    ensures Eval(e, s) == Eval(e, t)
  {
    if e.Bin? {
      assert s * Leaves(e.left) == s * Leaves(e) * Leaves(e.left) == t * Leaves(e.left);
      assert s * Leaves(e.right) == s * Leaves(e) * Leaves(e.right) == t * Leaves(e.right);
      OnlyLeavesMatter(e.left, s, t);
      OnlyLeavesMatter(e.right, s, t);
    } else {
      assert e.cond in s * Leaves(e) <==> e.cond in t * Leaves(e);
    }
  }

  // ------------------------------------------------------------------
  // Without an OR beneath an AND the meaning is kept
  // ------------------------------------------------------------------

  /** No operand of an AND has an OR that no parentheses protect. */
  predicate Separated(t: Tree) {
    match t
    case Atom(_) => true
    case Node(op, l, r) => Separated(l) && Separated(r) && (op == AndOp ==> !BareOr(l) && !BareOr(r))
    case Paren(u) => Separated(u)
    case Not(_) => true
  }

  lemma {:induction false} JoinAndMeansAnd(a: Tree, b: Tree, holding: set<Cond>)
    requires Level(a) > 0 && Level(b) > 0 && Grouped(a) && Grouped(b)
    ensures Eval(Strip(JoinAnd(a, b)), holding) == (Eval(Strip(a), holding) && Eval(Strip(b), holding))
    decreases b, a
  {
    if b.Node? {
      JoinAndMeansAnd(a, b.left, holding);
    }
  }

  lemma {:induction false} RegroupingKeepsMeaning(t: Tree, holding: set<Cond>)
    requires Written(t) && Separated(t)
    ensures Eval(Strip(Regrouped(t)), holding) == Eval(Strip(t), holding)
  {
    match t
    case Atom(_) =>
    case Node(op, l, r) =>
      RegroupingKeepsMeaning(l, holding);
      RegroupingKeepsMeaning(r, holding);
      if op == AndOp {
        RegroupedFits(l);
        RegroupedFits(r);
        JoinAndMeansAnd(Regrouped(l), Regrouped(r), holding);
      }
    case Paren(u) => RegroupingKeepsMeaning(u, holding);
    case Not(_) =>
  }

  // ------------------------------------------------------------------
  // With an OR beneath an AND it is lost
  // ------------------------------------------------------------------

  lemma {:induction false} JoinAndLeaves(a: Tree, b: Tree)
    ensures Leaves(Strip(JoinAnd(a, b))) == Leaves(Strip(a)) + Leaves(Strip(b))
    decreases b, a
  {
    if b.Node? && b.op == OrOp {
      JoinAndLeaves(a, b.left);
    } else if a.Node? && a.op == OrOp {
      JoinAndLeaves(a.right, b);
    } else if b.Node? {
      JoinAndLeaves(a, b.left);
    }
  }

  lemma {:induction false} RegroupedLeaves(t: Tree)
    ensures Leaves(Strip(Regrouped(t))) == Leaves(Strip(t))
  {
    match t
    case Atom(_) =>
    case Node(op, l, r) =>
      RegroupedLeaves(l);
      RegroupedLeaves(r);
      if op == AndOp {
        JoinAndLeaves(Regrouped(l), Regrouped(r));
      }
    case Paren(u) => RegroupedLeaves(u);
    case Not(_) =>
  }

  /** No condition occurs twice. */
  predicate DistinctLeaves(e: Expr) {
    match e
    case Leaf(_) => true
    case Bin(_, l, r) => Leaves(l) !! Leaves(r) && DistinctLeaves(l) && DistinctLeaves(r)
  }

  /** l AND r with a bare OR inside: one side true, the other false separates it from what is read back. */
  lemma {:induction false} AndOverOrDiffers(l: Tree, r: Tree) returns (holding: set<Cond>)
    requires Written(l) && Written(r) && Leaves(Strip(l)) !! Leaves(Strip(r)) && (BareOr(l) || BareOr(r))
    ensures var t := Node(AndOp, l, r); !Eval(Strip(t), holding) && Eval(Strip(Regrouped(t)), holding)
  {
    var a, b := Regrouped(l), Regrouped(r);
    RegroupedFits(l);
    RegroupedFits(r);
    RegroupedLeaves(l);
    RegroupedLeaves(r);
    if BareOr(r) {
      // b is b1 OR b2, and the text reads as (l AND b1) OR b2
      holding := Leaves(Strip(r));
      NoLeafHolds(Strip(l), holding);
      AllLeavesHold(Strip(b.right), holding);
    } else {
      // a is a1 OR a2, and the text reads as a1 OR (a2 AND r)
      holding := Leaves(Strip(l));
      NoLeafHolds(Strip(r), holding);
      AllLeavesHold(Strip(a.left), holding);
    }
  }

  /** If one operand is changed, so is the whole: make the other true for an AND, false for an OR. */
  lemma {:induction false} OperandDiffers(op: Op, e: Expr, e': Expr, other: Expr, other': Expr, h: set<Cond>)
    returns (holding: set<Cond>)
    requires Leaves(e) == Leaves(e') && Leaves(other) == Leaves(other') && Leaves(e) !! Leaves(other)
    requires Eval(e, h) != Eval(e', h)
    ensures Eval(e, holding) != Eval(e', holding)
    ensures Eval(other, holding) == Eval(other', holding) == (op == AndOp)
  {
    holding := h * Leaves(e) + if op == AndOp then Leaves(other) else {};
    assert holding * Leaves(e) == h * Leaves(e);
    OnlyLeavesMatter(e, h, holding);
    OnlyLeavesMatter(e', h, holding);
    if op == AndOp {
      AllLeavesHold(other, holding);
      AllLeavesHold(other', holding);
    } else {
      NoLeafHolds(other, holding);
      NoLeafHolds(other', holding);
    }
  }

  lemma {:induction false} RegroupingLosesMeaning(t: Tree) returns (holding: set<Cond>)
    requires Written(t) && DistinctLeaves(Strip(t)) && !Separated(t)
    ensures Eval(Strip(Regrouped(t)), holding) != Eval(Strip(t), holding)
  {
    match t
    case Node(op, l, r) =>
      if op == AndOp && (BareOr(l) || BareOr(r)) {
        holding := AndOverOrDiffers(l, r);
      } else {
        RegroupedLeaves(l);
        RegroupedLeaves(r);
        if !Separated(l) {
          var h := RegroupingLosesMeaning(l);
          holding := OperandDiffers(op, Strip(l), Strip(Regrouped(l)), Strip(r), Strip(Regrouped(r)), h);
        } else {
          var h := RegroupingLosesMeaning(r);
          holding := OperandDiffers(op, Strip(r), Strip(Regrouped(r)), Strip(l), Strip(Regrouped(l)), h);
        }
        NodeEval(op, l, r, holding);
      }
    case Paren(u) => holding := RegroupingLosesMeaning(u);
  }

  lemma {:induction false} NodeEval(op: Op, l: Tree, r: Tree, holding: set<Cond>)
    requires Written(Node(op, l, r)) && (op == AndOp ==> !BareOr(l) && !BareOr(r))
    ensures var a, b := Eval(Strip(Regrouped(l)), holding), Eval(Strip(Regrouped(r)), holding);
      Eval(Strip(Regrouped(Node(op, l, r))), holding) == if op == AndOp then a && b else a || b
  {
    if op == AndOp {
      RegroupedFits(l);
      RegroupedFits(r);
      JoinAndMeansAnd(Regrouped(l), Regrouped(r), holding);
    }
  }

  /** What is written with distinct conditions is read as it is meant if and only if no operand of an AND has a bare
      OR. */
  lemma {:induction false} RegroupingExactlyWhen(t: Tree)
    requires Written(t) && DistinctLeaves(Strip(t))
    ensures (forall holding :: Eval(Strip(Regrouped(t)), holding) == Eval(Strip(t), holding)) <==> Separated(t)
  {
    if Separated(t) {
      forall holding ensures Eval(Strip(Regrouped(t)), holding) == Eval(Strip(t), holding) {
        RegroupingKeepsMeaning(t, holding);
      }
    } else {
      var holding := RegroupingLosesMeaning(t);
    }
  }

  lemma {:induction false} SeparatedExpr(e: Expr)
    requires GoodLeaves(e)
    ensures Separated(WrittenTree(e)) <==> NoOrUnderAnd(e)
    ensures OrFree(e) ==> NoOrUnderAnd(e)
  {
    WrittenTreeIsWritten(e);
    if e.Bin? {
      WrittenTreeIsWritten(e.left);
      WrittenTreeIsWritten(e.right);
      SeparatedExpr(e.left);
      SeparatedExpr(e.right);
    }
  }

  /** Exactly when the round trip keeps the meaning: a condition whose leaves are distinct is read back as an
      equivalent one if and only if no OR stands beneath an AND. */
  lemma {:induction false} RoundTripExactlyWhen(e: Expr)
    requires GoodLeaves(e) && DistinctLeaves(e)
    ensures (forall holding :: Eval(Reparsed(e), holding) == Eval(e, holding)) <==> NoOrUnderAnd(e)
  {
    WrittenTreeIsWritten(e);
    SeparatedExpr(e);
    RegroupingExactlyWhen(WrittenTree(e));
  }

  // ------------------------------------------------------------------
  // The same on documents
  // ------------------------------------------------------------------

  function Holding(e: Expr, d: Doc): set<Cond> {
    set c | c in Leaves(e) && Holds(c, d)
  }

  predicate NoNegation(e: Expr) {
    forall c :: c in Leaves(e) && c.Compare? ==> c.op != "!="
  }

  lemma {:induction false} SatisfiesIsEval(e: Expr, d: Doc, holding: set<Cond>)
    requires NoNegation(e)
    requires forall c :: c in Leaves(e) ==> (c in holding <==> Holds(c, d))
    ensures Satisfies(e, d) == Eval(e, holding)
  {
    if e.Bin? {
      SatisfiesIsEval(e.left, d, holding);
      SatisfiesIsEval(e.right, d, holding);
    }
  }

  lemma {:induction false} PrintableLeaves(e: Expr)
    requires AllPrintable(e)
    ensures NoNegation(e) && KnownOps(e) && GoodLeaves(e)
  {
    if e.Bin? {
      PrintableLeaves(e.left);
      PrintableLeaves(e.right);
    }
  }

  /** Main result on documents: for every printable condition without an OR beneath an AND, the text printed from the
      compiled query tokenizes and parses to a condition true of exactly the same documents, which are the ones the
      compiled query selects. */
  lemma {:induction false} WhereRoundTrip(e: Expr, d: Doc)
    requires AllPrintable(e) && NoOrUnderAnd(e)
    ensures Lex(WhereText(e), 0) == Ok(Tokens(TextTree(e)) + [Eof])
    ensures Ends(Tokens(TextTree(e)) + [Eof])
    ensures PExpr(Tokens(TextTree(e)) + [Eof], 0) == Ok((Reparsed(e), [Eof]))
    ensures Satisfies(Reparsed(e), d) == Satisfies(e, d) == Matches(ExprToQuery(e), d)
  {
    TextReadsBack(e);
    PrintableLeaves(e);
    CompilationPreservesMeaning(e, d);
    WrittenTreeIsWritten(e);
    RegroupedLeaves(WrittenTree(e));
    SatisfiesIsEval(e, d, Holding(e, d));
    SatisfiesIsEval(Reparsed(e), d, Holding(e, d));
    SeparatedExpr(e);
    RegroupingKeepsMeaning(WrittenTree(e), Holding(e, d));
  }

  /** A value that makes the condition true of a document. */
  function Witness(c: Cond): Literal
    requires Satisfiable(c)
  {
    match c
    case In(_, vs) => vs[0]
    case Like(_, p) => StrLit(p)
    case Compare(_, op, v) =>
      if op in {"=", "<=", ">="} then v
      else match v
        case IntLit(n) => IntLit(if op == "<" then n - 1 else n + 1)
        case StrLit(s) => StrLit(if op == "<" then "" else s + "a")
  }

  /** Some value satisfies the condition; only `< ''` has none. */
  predicate Satisfiable(c: Cond) {
    match c
    case In(_, vs) => vs != []
    case Compare(_, op, v) => PlainOp(op) && (op in {"<", ">"} ==> !v.FloatLit?) && (op == "<" ==> v != StrLit(""))
    case Like(_, _) => true
  }

  lemma {:induction false} WitnessSatisfies(c: Cond, d: Doc)
    requires Satisfiable(c) && c.field in d && d[c.field] == Witness(c)
    ensures Holds(c, d)
  {
    if c.Compare? && c.val.StrLit? && c.op == ">" {
      LessAppend(c.val.s, "a");
    }
  }

  lemma {:induction false} LessAppend(s: string, t: string)
    requires t != ""
    ensures Less(s, s + t)
  {
    if s != "" {
      LessAppend(s[1..], t);
      assert (s + t)[1..] == s[1..] + t;
    }
  }

  predicate DistinctFields(e: Expr) {
    forall c, c' :: c in Leaves(e) && c' in Leaves(e) && c.field == c'.field ==> c == c'
  }

  function FieldsOf(chosen: set<Cond>): set<string> {
    set c | c in chosen :: c.field
  }

  ghost function CondOn(chosen: set<Cond>, f: string): (c: Cond)
    requires f in FieldsOf(chosen)
    ensures c in chosen && c.field == f
  {
    var c :| c in chosen && c.field == f;
    c
  }

  /** The document that has exactly the fields of the chosen conditions, each with a satisfying value. */
  ghost function DocOf(chosen: set<Cond>): Doc
    requires forall c :: c in chosen ==> Satisfiable(c)
  {
    map f | f in FieldsOf(chosen) :: Witness(CondOn(chosen, f))
  }

  lemma {:induction false} DocOfChooses(e: Expr, chosen: set<Cond>, c: Cond)
    requires DistinctFields(e) && (forall c :: c in Leaves(e) ==> Satisfiable(c)) && c in Leaves(e)
    ensures Holds(c, DocOf(chosen * Leaves(e))) <==> c in chosen
  {
    var cs := chosen * Leaves(e);
    var d := DocOf(cs);
    if c in chosen {
      assert c in cs && c.field in FieldsOf(cs);
      assert CondOn(cs, c.field) == c;
      WitnessSatisfies(c, d);
    }
    if Holds(c, d) {
      assert CondOn(cs, c.field) == c;
    }
  }

  // ------------------------------------------------------------------
  // With a LIKE it is lost
  // ------------------------------------------------------------------

  predicate NoLike(e: Expr) { forall c :: c in Leaves(e) ==> !c.Like? }

  lemma {:induction false} ShownLeaves(e: Expr)
    requires AllWritable(e) && !Negates(e) && Shown(e).Some?
    ensures forall c :: c in Leaves(Strip(Shown(e).value)) ==> c in Leaves(e) && !c.Like?
  {
    match e
    case Leaf(c) => ShownLeaf(c);
    case Bin(op, l, r) =>
      ShownAnd(l, r);
      ShownOr(l, r);
      if Shown(l).Some? {
        ShownLeaves(l);
      }
      if Shown(r).Some? {
        ShownLeaves(r);
      }
  }

  /** Nor is there a LIKE in what is written of any other condition. */
  lemma {:induction false} NoLikeShown(e: Expr)
    requires Shown(e).Some?
    ensures forall c :: c in Leaves(Strip(Shown(e).value)) ==> !c.Like?
  {
    match e
    case Leaf(c) => NoLikeInLeaf(c);
    case Bin(op, l, r) =>
      ShownAnd(l, r);
      ShownOr(l, r);
      if Shown(l).Some? {
        NoLikeShown(l);
      }
      if Shown(r).Some? {
        NoLikeShown(r);
      }
  }

  lemma {:induction false} NoLikeInLeaf(c: Cond)
    requires Shown(Leaf(c)).Some?
    ensures forall c' :: c' in Leaves(Strip(Shown(Leaf(c)).value)) ==> !c'.Like?
  {
    if c.Compare? && c.op == "!=" {
      var q := Term(c.field, c.val);
      assert [q][1..] == [] && SaidAll([q]) == [Atom(Compare(c.field, "=", c.val))];
      assert [] + [] + Any(Parens([])) + Nots(SaidAll([q])) == [Not(Atom(Compare(c.field, "=", c.val)))];
    } else if c.Compare? && c.op in COMPARISONS && c.op != "=" {
      var b := ExprToQuery(Leaf(c)).bounds[0];
      assert [b][1..] == [];
      assert BoundTrees(c.field, [b]) == [Atom(Compare(c.field, RangeSymbol(b.op), b.val))];
    }
  }

  lemma {:induction false} ReadLeaves(e: Expr)
    requires AllWritable(e) && !Negates(e) && Shown(e).Some?
    ensures forall c :: c in Leaves(Read(e)) ==> c in Leaves(e) && !c.Like?
  {
    ShownLeaves(e);
    RegroupedLeaves(Shown(e).value);
  }

  /** Every condition of an expression in which none occurs twice can decide it. */
  lemma {:induction false} LeafDecides(e: Expr, c: Cond) returns (holding: set<Cond>)
    requires DistinctLeaves(e) && c in Leaves(e)
    ensures Eval(e, holding + {c}) && !Eval(e, holding - {c})
  {
    if e.Leaf? {
      holding := {};
    } else if c in Leaves(e.left) {
      var h := LeafDecides(e.left, c);
      holding := SideDecides(e, e.left, e.right, c, h);
    } else {
      var h := LeafDecides(e.right, c);
      holding := SideDecides(e, e.right, e.left, c, h);
    }
  }

  /** Make the other side of an AND true, of an OR false. */
  lemma {:induction false} SideDecides(e: Expr, side: Expr, other: Expr, c: Cond, h: set<Cond>)
    returns (holding: set<Cond>)
    requires e.Bin? && (e == Bin(e.op, side, other) || e == Bin(e.op, other, side))
    requires Leaves(side) !! Leaves(other) && c in Leaves(side)
    requires Eval(side, h + {c}) && !Eval(side, h - {c})
    ensures Eval(e, holding + {c}) && !Eval(e, holding - {c})
  {
    holding := h * Leaves(side) + if e.op == AndOp then Leaves(other) else {};
    assert (holding + {c}) * Leaves(side) == (h + {c}) * Leaves(side);
    assert (holding - {c}) * Leaves(side) == (h - {c}) * Leaves(side);
    OnlyLeavesMatter(side, holding + {c}, h + {c});
    OnlyLeavesMatter(side, holding - {c}, h - {c});
    if e.op == AndOp {
      assert Leaves(other) <= holding + {c};
      AllLeavesHold(other, holding + {c});
    } else {
      NoLeafHolds(other, holding - {c});
    }
  }

  /** What is read back does not depend on a LIKE, and the condition does. */
  lemma {:induction false} LikeMatters(e: Expr, c: Cond) returns (holding: set<Cond>)
    requires DistinctLeaves(e) && Shown(e).Some? && c in Leaves(e) && c.Like?
    ensures Eval(e, holding) != Eval(Read(e), holding)
  {
    var h := LeafDecides(e, c);
    NoLikeShown(e);
    RegroupedLeaves(Shown(e).value);
    assert (h + {c}) * Leaves(Read(e)) == (h - {c}) * Leaves(Read(e));
    OnlyLeavesMatter(Read(e), h + {c}, h - {c});
    holding := if Eval(Read(e), h + {c}) then h - {c} else h + {c};
  }

  lemma {:induction false} WithoutLikePrintable(e: Expr)
    requires AllWritable(e) && !Negates(e) && NoLike(e)
    ensures AllPrintable(e)
  {
    if e.Bin? {
      WithoutLikePrintable(e.left);
      WithoutLikePrintable(e.right);
    } else {
      assert e.cond in Leaves(e);
    }
  }

  lemma {:induction false} NegationIsLeaf(e: Expr)
    requires !Negates(e)
    ensures NoNegation(e)
  {
    if e.Bin? {
      NegationIsLeaf(e.left);
      NegationIsLeaf(e.right);
    }
  }

  /** A document that tells the two conditions apart. */
  lemma {:induction false} DocTellsApart(e: Expr, read: Expr, holding: set<Cond>)
    requires NoNegation(e) && DistinctFields(e) && (forall c :: c in Leaves(e) ==> Satisfiable(c))
    requires Leaves(read) <= Leaves(e) && Eval(e, holding) != Eval(read, holding)
    ensures exists d :: Satisfies(read, d) != Satisfies(e, d)
  {
    var d := DocOf(holding * Leaves(e));
    forall c | c in Leaves(e) ensures Holds(c, d) <==> c in holding {
      DocOfChooses(e, holding, c);
    }
    SatisfiesIsEval(e, d, holding);
    SatisfiesIsEval(read, d, holding);
  }

  /** The exact condition on documents, for every condition whose text is not empty and reads back: when no two
      conditions speak of the same field and each can be satisfied, every document is treated alike before and after the
      round trip if and only if there is no LIKE and no OR stands beneath an AND. */
  lemma {:induction false} RoundTripExactlyWhenOnDocs(e: Expr)
    requires AllWritable(e) && !Negates(e) && !OnlyLikes(e) && DistinctLeaves(e) && DistinctFields(e)
    requires forall c :: c in Leaves(e) ==> Satisfiable(c)
    ensures Shown(e).Some?
    ensures (forall d :: Satisfies(Read(e), d) == Satisfies(e, d)) <==> NoLike(e) && NoOrUnderAnd(e)
  {
    ShownShape(e);
    NegationIsLeaf(e);
    hide Leaves, Satisfies, Satisfiable, DistinctFields, AllWritable, Said;
    if c :| c in Leaves(e) && c.Like? {
      var holding := LikeMatters(e, c);
      ReadLeaves(e);
      DocTellsApart(e, Read(e), holding);
    } else {
      WithoutLikePrintable(e);
      ShownTreeOf(e);
      assert Read(e) == Reparsed(e);
      PrintableLeaves(e);
      RoundTripExactlyWhen(e);
      WrittenTreeIsWritten(e);
      RegroupedLeaves(WrittenTree(e));
      if NoOrUnderAnd(e) {
        forall d ensures Satisfies(Read(e), d) == Satisfies(e, d) {
          WhereRoundTrip(e, d);
        }
      } else {
        var holding :| Eval(Reparsed(e), holding) != Eval(e, holding);
        DocTellsApart(e, Read(e), holding);
      }
    }
  }
}
