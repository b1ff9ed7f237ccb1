/** The parser reads nothing but statements as they may be written (pkg/sqldsl/sqldsl.go). */
module SqlGrammar {
  import opened Common
  import opened Text
  import opened SqlLexer
  import opened SqlParser
  import opened SqlRender
  import opened SqlSelect
  import opened SqlStatement
  import opened SqlWritten

  // ------------------------------------------------------------------
  // Tokens, with numbers in one spelling
  // ------------------------------------------------------------------

  function Plain(t: Token): Token {
    if t.Number? then match NumberValue(t.text) case Ok(v) => LiteralToken(v) case Err(_) => t else t
  }

  function Plains(ts: seq<Token>): (r: seq<Token>)
    ensures |r| == |ts|
  {
    if ts == [] then [] else [Plain(ts[0])] + Plains(ts[1..])
  }

  lemma {:induction false} PlainsSplit(ts: seq<Token>, n: nat)
    requires n <= |ts|
    ensures Plains(ts) == Plains(ts[..n]) + Plains(ts[n..])
  {
    if n == 0 {
      assert ts[..0] == [] && ts[0..] == ts;
    } else {
      PlainsSplit(ts[1..], n - 1);
      assert ts[..n][1..] == ts[1..][..n-1] && ts[1..][n-1..] == ts[n..];
    }
  }

  lemma {:induction false} PlainsOne(ts: seq<Token>)
    requires ts != []
    ensures Plains(ts) == [Plain(ts[0])] + Plains(ts[1..])
  {
  }

  lemma {:induction false} PlainsTwo(ts: seq<Token>)
    requires |ts| >= 2
    ensures Plains(ts) == [Plain(ts[0]), Plain(ts[1])] + Plains(ts[2..])
  {
    assert ts[1..][1..] == ts[2..];
  }

  // ------------------------------------------------------------------
  // Conditions
  // ------------------------------------------------------------------

  lemma {:induction false} LiteralIsWritten(ts: seq<Token>)
    requires Ends(ts) && PLiteral(ts).Ok?
    ensures var (v, rest) := PLiteral(ts).value;
      Ends(rest) && rest == ts[1..] && GoodLiteral(v) && Plains(ts) == [LiteralToken(v)] + Plains(rest)
  {
  }

  lemma {:induction false} MoreLiterals(v: Literal, vs: seq<Literal>, more: seq<Token>)
    requires vs != []
    ensures LiteralTokens([v] + vs) + more == [LiteralToken(v)] + ([Punct(',')] + (LiteralTokens(vs) + more))
  {
    hide LiteralToken;
    assert ([v] + vs)[1..] == vs;
    assert LiteralTokens([v] + vs) == [LiteralToken(v), Punct(',')] + LiteralTokens(vs);
  }

  lemma {:induction false} LiteralsAreWritten(ts: seq<Token>)
    requires Ends(ts) && PLiterals(ts).Ok?
    ensures var (vs, rest) := PLiterals(ts).value;
      && Ends(rest) && vs != [] && (forall v :: v in vs ==> GoodLiteral(v))
      && Plains(ts) == LiteralTokens(vs) + Plains(rest)
    decreases |ts|
  {
    hide PLiteral, GoodLiteral, LiteralToken, LiteralTokens, Plains;
    LiteralIsWritten(ts);
    var (v, rest) := PLiteral(ts).value;
    if rest[0] == Punct(',') {
      LiteralsAreWritten(rest[1..]);
      var (vs, more) := PLiterals(rest[1..]).value;
      PlainsOne(rest);
      MoreLiterals(v, vs, Plains(more));
    } else {
      OneLiteral(v);
    }
  }

  lemma {:induction false} OneLiteral(v: Literal)
    ensures LiteralTokens([v]) == [LiteralToken(v)]
  {
  }

  lemma {:induction false} CondIsWritten(ts: seq<Token>)
    requires Ends(ts) && PCond(ts).Ok?
    ensures var (c, rest) := PCond(ts).value; Ends(rest) && GoodCond(c) && Plains(ts) == CondTokens(c) + Plains(rest)
  {
    hide PLiteral, PLiterals, GoodLiteral, LiteralToken, LiteralTokens, Remains;
    var (c, rest) := PCond(ts).value;
    PlainsTwo(ts);
    match c
    case Compare(f, op, v) => LiteralIsWritten(ts[2..]);
    case In(f, vs) =>
      PlainsOne(ts[2..]);
      assert ts[2..][1..] == ts[3..];
      LiteralsAreWritten(ts[3..]);
      var more := PLiterals(ts[3..]).value.1;
      PlainsOne(more);
    case Like(f, p) =>
      PlainsOne(ts[2..]);
      assert ts[2..][1..] == ts[3..];
      PatternIsWritten(ts[2].value);
  }

  lemma {:induction false} PatternIsWritten(v: string)
    requires PrefixPattern(v).Some?
    ensures var p := PrefixPattern(v).value; v == p + "%" && '%' !in p && '_' !in p
  {
    assert v == v[..|v|-1] + [v[|v|-1]];
  }

  // ------------------------------------------------------------------
  // Expressions
  // ------------------------------------------------------------------

  /** No connective follows that the loop would go on with. */
  predicate Stopped(rest: seq<Token>, minPrio: nat)
    requires Ends(rest)
  {
    Connective(rest[0]).None? || Prio(Connective(rest[0]).value) < minPrio
  }

  /** What was read, as it may have been written: ts is the tree and what is left. */
  ghost predicate ReadAs(t: Tree, e: Expr, ts: seq<Token>, rest: seq<Token>) {
    WellFormed(t) && Strip(t) == e && ts == Tokens(t) + Plains(rest)
  }

  lemma {:induction false} ExprIsWritten(ts: seq<Token>, minPrio: nat) returns (t: Tree)
    requires Ends(ts) && minPrio <= 2 && PExpr(ts, minPrio).Ok?
    ensures var (e, rest) := PExpr(ts, minPrio).value;
      Ends(rest) && ReadAs(t, e, Plains(ts), rest) && Level(t) >= minPrio && Stopped(rest, minPrio)
    decreases |ts|, 2
  {
    hide PPrimary, PLoop, Remains, Plains, Tokens, WellFormed;
    var l := PrimaryIsWritten(ts);
    var (e, more) := PPrimary(ts).value;
    t := LoopIsWritten(l, Plains(ts), more, minPrio);
  }

  lemma {:induction false} PrimaryIsWritten(ts: seq<Token>) returns (t: Tree)
    requires Ends(ts) && PPrimary(ts).Ok?
    ensures var (e, rest) := PPrimary(ts).value;
      Ends(rest) && |rest| < |ts| && ReadAs(t, e, Plains(ts), rest) && Level(t) == 2
    decreases |ts|, 1
  {
    hide PExpr, PCond, Plains, CondTokens;
    if ts[0] == Punct('(') {
      var u := ExprIsWritten(ts[1..], 0);
      var (e, us) := PExpr(ts[1..], 0).value;
      PlainsOne(ts);
      PlainsOne(us);
      t := Paren(u);
      ParenTokens(u, Plains(us[1..]));
      hide Remains;
      assert [Punct('(')] + (Tokens(u) + ([Punct(')')] + Plains(us[1..]))) == Tokens(t) + Plains(us[1..]);
    } else {
      CondIsWritten(ts);
      t := Atom(PCond(ts).value.0);
    }
  }

  /** The loop goes on with what it has read as the tree l. */
  lemma {:induction false} LoopIsWritten(l: Tree, all: seq<Token>, ts: seq<Token>, minPrio: nat) returns (t: Tree)
    requires Ends(ts) && minPrio <= 2 && PLoop(Strip(l), ts, minPrio).Ok?
    requires ReadAs(l, Strip(l), all, ts) && Level(l) >= minPrio && FollowedLoosely(ts, Level(l))
    ensures var (e, rest) := PLoop(Strip(l), ts, minPrio).value;
      Ends(rest) && ReadAs(t, e, all, rest) && Level(t) >= minPrio && Stopped(rest, minPrio)
    decreases |ts|, 0
  {
    hide PExpr, Plains, Tokens, Remains;
    var op := Connective(ts[0]);
    if op.None? || Prio(op.value) < minPrio {
      t := l;
    } else {
      var r := ExprIsWritten(ts[1..], Prio(op.value) + 1);
      var (right, rest) := PExpr(ts[1..], Prio(op.value) + 1).value;
      var node := Node(op.value, l, r);
      PlainsOne(ts);
      NodeTokens(node, Plains(rest));
      ShorterRest(ts, Prio(op.value) + 1);
      t := LoopIsWritten(node, all, rest, minPrio);
    }
  }

  lemma {:induction false} ShorterRest(ts: seq<Token>, minPrio: nat)
    requires Ends(ts) && |ts| > 1 && PExpr(ts[1..], minPrio).Ok?
    ensures |PExpr(ts[1..], minPrio).value.1| < |ts|
  {
    hide PExpr;
  }

  // ------------------------------------------------------------------
  // Statements
  // ------------------------------------------------------------------

  lemma {:induction false} FieldIsWritten(ts: seq<Token>)
    requires Ends(ts) && PField(ts).Ok?
    ensures var (f, rest) := PField(ts).value; Ends(rest) && Plains(ts) == FieldTokens(f) + Plains(rest)
  {
    hide Remains;
    PlainsOne(ts);
    if ts[0] == Keyword("count") {
      PlainsTwo(ts);
      PlainsTwo(ts[2..]);
      assert ts[2..][2..] == ts[4..] && ts[1..][1..][1..][1..] == ts[4..];
      if ts[4] == Keyword("as") {
        PlainsTwo(ts[4..]);
      }
    }
  }

  lemma {:induction false} FieldsAreWritten(ts: seq<Token>)
    requires Ends(ts) && PFields(ts).Ok?
    ensures var (fs, rest) := PFields(ts).value;
      fs != [] && Ends(rest) && Plains(ts) == FieldsTokens(fs) + Plains(rest)
    decreases |ts|
  {
    hide PField, FieldTokens, FieldsTokens, Plains;
    FieldIsWritten(ts);
    var (f, rest) := PField(ts).value;
    if rest[0] == Punct(',') {
      FieldsAreWritten(rest[1..]);
      var (fs, more) := PFields(rest[1..]).value;
      PlainsOne(rest);
      MoreFields(f, fs, Plains(more));
    } else {
      OneField(f);
    }
  }

  lemma {:induction false} OneField(f: FieldRef)
    ensures FieldsTokens([f]) == FieldTokens(f)
  {
  }

  lemma {:induction false} MoreFields(f: FieldRef, fs: seq<FieldRef>, more: seq<Token>)
    requires fs != []
    ensures FieldsTokens([f] + fs) + more == FieldTokens(f) + ([Punct(',')] + (FieldsTokens(fs) + more))
  {
    hide FieldTokens;
    assert ([f] + fs)[1..] == fs;
  }

  lemma {:induction false} ListIsWritten(ts: seq<Token>)
    requires Ends(ts) && PFieldList(ts).Ok?
    ensures var (fl, rest) := PFieldList(ts).value;
      Ends(rest) && fl.1 == (fl.0 == []) && Plains(ts) == ListTokens(fl.0) + Plains(rest)
  {
    hide PFields, FieldsTokens;
    if ts[0] == Operator("*") {
      PlainsOne(ts);
    } else {
      FieldsAreWritten(ts);
    }
  }

  lemma {:induction false} WhereIsWritten(ts: seq<Token>) returns (where: Option<Tree>)
    requires Ends(ts) && PWhere(ts).Ok?
    ensures var (w, rest) := PWhere(ts).value;
      && Ends(rest) && (where.Some? ==> WellFormed(where.value))
      && w == (match where case None => None case Some(t) => Some(Strip(t)))
      && Plains(ts) == ConditionTokens(where) + Plains(rest)
  {
    hide PExpr, Plains, Tokens, WellFormed, Strip;
    if ts[0] != Keyword("where") {
      where := None;
      assert [] + Plains(ts) == Plains(ts);
    } else {
      PlainsOne(ts);
      var t := ExprIsWritten(ts[1..], 0);
      where := Some(t);
      var rest := PExpr(ts[1..], 0).value.1;
      assert [Keyword("where")] + (Tokens(t) + Plains(rest)) == ConditionTokens(where) + Plains(rest);
    }
  }

  /** The direction as it was given. */
  lemma {:induction false} TermsAreWritten(ts: seq<Token>) returns (os: seq<Order>)
    requires Ends(ts) && POrderTerms(ts).Ok?
    ensures var (terms, rest) := POrderTerms(ts).value;
      os != [] && Ends(rest) && Terms(os) == terms && Plains(ts) == WaysTokens(os) + Plains(rest)
    decreases |ts|
  {
    hide Plains, WaysTokens, Remains;
    var way := if ts[1] == Keyword("asc") then Ascending else if ts[1] == Keyword("desc") then Descending else Unsaid;
    var o := Order(ts[0].name, way);
    var rest := if way.Unsaid? then ts[1..] else ts[2..];
    PlainsOne(ts);
    PlainsTwo(ts);
    assert Plains(ts) == WayTokens(o) + Plains(rest);
    hide WayTokens;
    if rest[0] == Punct(',') {
      var more := TermsAreWritten(rest[1..]);
      PlainsOne(rest);
      os := [o] + more;
      MoreOrders(o, more, Plains(POrderTerms(rest[1..]).value.1));
    } else {
      os := [o];
      OneOrder(o);
    }
  }

  lemma {:induction false} OneOrder(o: Order)
    ensures WaysTokens([o]) == WayTokens(o) && Terms([o]) == [OrderTerm(o.field, o.way == Descending)]
  {
  }

  lemma {:induction false} MoreOrders(o: Order, os: seq<Order>, more: seq<Token>)
    requires os != []
    ensures WaysTokens([o] + os) + more == WayTokens(o) + ([Punct(',')] + (WaysTokens(os) + more))
    ensures Terms([o] + os) == [OrderTerm(o.field, o.way == Descending)] + Terms(os)
  {
    hide WayTokens;
    assert ([o] + os)[1..] == os;
  }

  lemma {:induction false} OrdersAreWritten(ts: seq<Token>) returns (os: seq<Order>)
    requires Ends(ts) && POrderBy(ts).Ok?
    ensures var (terms, rest) := POrderBy(ts).value;
      Ends(rest) && Terms(os) == terms && Plains(ts) == OrdersTokens(os) + Plains(rest)
  {
    hide POrderTerms, Plains, WaysTokens, Remains;
    if ts[0] != Keyword("order") {
      os := [];
      assert [] + Plains(ts) == Plains(ts);
    } else {
      os := TermsAreWritten(ts[2..]);
      PlainsTwo(ts);
      assert ts[1..][1..] == ts[2..];
      var rest := POrderTerms(ts[2..]).value.1;
      assert [Keyword("order"), Keyword("by")] + (WaysTokens(os) + Plains(rest)) == OrdersTokens(os) + Plains(rest);
    }
  }

  lemma {:induction false} NumberIsWritten(ts: seq<Token>, w: string) returns (n: Option<int>)
    requires Ends(ts) && PNumberClause(ts, w).Ok?
    ensures var (k, rest) := PNumberClause(ts, w).value;
      Ends(rest) && InRange64(n) && Amount(n) == k && Plains(ts) == NumberTokens(w, n) + Plains(rest)
  {
    hide Remains;
    if ts[0] != Keyword(w) {
      n := None;
      assert [] + Plains(ts) == Plains(ts);
    } else {
      n := Some(Atoi(ts[1].text).value);
      PlainsTwo(ts);
      NumberIsPlain(ts[1].text);
    }
  }

  lemma {:induction false} NumberIsPlain(text: string)
    requires Atoi(text).Ok?
    ensures var n := Atoi(text).value; 0 <= n <= MAX_INT64 && Plain(Number(text)) == Number(FormatInt(n))
  {
    assert '.' !in text;
  }

  lemma {:induction false} BodyIsWritten(ts: seq<Token>, fields: seq<FieldRef>, index: string) returns (d: Draft)
    requires Ends(ts) && PBody(ts, fields, fields == [], index).Ok?
    ensures Valid(d) && Meant(d) == PBody(ts, fields, fields == [], index).value
    ensures Plains(ts) == ConditionTokens(d.where) + (OrdersTokens(d.orders) + EndTokens(d))
    ensures d.fields == fields && d.index == index
  {
    hide Plains, PWhere, POrderBy, PNumberClause, ConditionTokens, OrdersTokens, NumberTokens, WellFormed, Remains;
    var where := WhereIsWritten(ts);
    var us := PWhere(ts).value.1;
    var orders := OrdersAreWritten(us);
    var ws := POrderBy(us).value.1;
    var limit := NumberIsWritten(ws, "limit");
    var xs := PNumberClause(ws, "limit").value.1;
    var offset := NumberIsWritten(xs, "offset");
    var rest := PNumberClause(xs, "offset").value.1;
    EndIsPlain(rest);
    d := Draft(fields, index, where, orders, limit, offset, Plains(rest));
  }

  lemma {:induction false} EndIsPlain(rest: seq<Token>)
    requires Ends(rest) && (rest[0] == Eof || rest[0] == Punct(';'))
    ensures Ends(Plains(rest)) && Plains(rest)[0] == rest[0]
  {
    var n := |rest| - 1;
    PlainsSplit(rest, n);
    assert rest[n..] == [Eof];
    assert Plains([Eof]) == [Eof];
  }

  /** Whatever the parser reads was written as a statement may be: up to the spelling of its numbers, the tokens are
      those of a draft that means what was read. With DraftReads, the parser reads these and nothing else. */
  lemma {:induction false} OnlyDraftsAreRead(ts: seq<Token>) returns (d: Draft)
    requires Ends(ts) && PSelect(ts).Ok?
    ensures Valid(d) && Meant(d) == PSelect(ts).value && Plains(ts) == DraftTokens(d)
  {
    hide Plains, PFieldList, PBody, ListTokens, ConditionTokens, OrdersTokens, EndTokens, Valid, Meant, Remains;
    PlainsOne(ts);
    ListIsWritten(ts[1..]);
    var (fl, ws) := PFieldList(ts[1..]).value;
    PlainsTwo(ws);
    assert ws[1..][1..] == ws[2..];
    d := BodyIsWritten(ws[2..], fl.0, ws[1].name);
  }
}
