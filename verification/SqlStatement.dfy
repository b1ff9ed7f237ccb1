/** Reading back the text printed for a whole SELECT statement (pkg/sqldsl/sqldsl.go). */
module SqlStatement {
  import opened Common
  import opened Text
  import opened SqlLexer
  import opened SqlParser
  import opened SqlRender
  import opened SqlDsl
  import opened SqlLexText
  import opened SqlQueryText
  import opened SqlRoundTrip
  import opened SqlMeaning
  import opened SqlQueryMeaning
  import opened SqlSelect

  // ------------------------------------------------------------------
  // The tokens of each clause
  // ------------------------------------------------------------------

  function TermTokens(t: OrderTerm): seq<Token> {
    [Ident(t.field), Keyword(if t.desc then "desc" else "asc")]
  }

  function OrderTokens(ts: seq<OrderTerm>): seq<Token> {
    if ts == [] then []
    else if |ts| == 1 then TermTokens(ts[0])
    else TermTokens(ts[0]) + ([Punct(',')] + OrderTokens(ts[1..]))
  }

  function OrderClauseTokens(ts: seq<OrderTerm>): seq<Token> {
    if ts == [] then [] else [Keyword("order"), Keyword("by")] + OrderTokens(ts)
  }

  function NumberTokens(w: string, n: Option<int>): seq<Token> {
    match n case None => [] case Some(v) => [Keyword(w), Number(FormatInt(v))]
  }

  /** A query of which nothing is printed has no clause. */
  function WhereTokens(q: Query): seq<Token> {
    match Said(q) case None => [] case Some(t) => [Keyword("where")] + Tokens(t)
  }

  predicate InRange64(n: Option<int>) { n.Some? ==> 0 <= n.value <= MAX_INT64 }

  // ------------------------------------------------------------------
  // Lexing
  // ------------------------------------------------------------------

  lemma {:induction false} LexesClause(w: string, k: string, n: Option<int>, r: string, ts: seq<Token>)
    requires (w, k) in KEYWORD_SPELLINGS && InRange64(n) && Lexes(r, ts) && AtBoundary(r)
    ensures Lexes(Clause(w, n) + r, NumberTokens(k, n) + ts) && AtBoundary(Clause(w, n) + r)
  {
    hide Lexes;
    if n == None {
      assert "" + r == r && [] + ts == ts;
    } else {
      var s1, t1 := FormatInt(n.value) + r, [Number(FormatInt(n.value))] + ts;
      LexesNumber(n.value, r, ts);
      LexesSpace(s1, t1);
      LexesKeyword(w, k, " " + s1, t1);
      LexesSpace(w + (" " + s1), [Keyword(k)] + t1);
      assert Clause(w, n) + r == " " + (w + (" " + s1));
      assert NumberTokens(k, n) + ts == [Keyword(k)] + t1;
    }
  }

  lemma {:induction false} LexesOrderTerm(t: OrderTerm, r: string, ts: seq<Token>)
    requires Relexable(t.field) && Lexes(r, ts) && AtBoundary(r)
    ensures Lexes(OrderText(t) + r, TermTokens(t) + ts)
  {
    hide Lexes, Relexable, QuoteIdent;
    var w, k := if t.desc then "DESC" else "ASC", if t.desc then "desc" else "asc";
    LexesKeyword(w, k, r, ts);
    LexesSpace(w + r, [Keyword(k)] + ts);
    LexesIdent(t.field, " " + (w + r), [Keyword(k)] + ts);
    assert OrderText(t) + r == QuoteIdent(t.field) + (" " + (w + r));
    assert [Ident(t.field), Keyword(k)] + ts == [Ident(t.field)] + ([Keyword(k)] + ts);
  }

  lemma {:induction false} LexesOrder(os: seq<OrderTerm>, r: string, ts: seq<Token>)
    requires os != [] && (forall o :: o in os ==> Relexable(o.field)) && Lexes(r, ts) && AtBoundary(r)
    ensures Lexes(OrderTexts(os) + r, OrderTokens(os) + ts)
  {
    hide Lexes, Relexable, OrderText, TermTokens;
    if |os| == 1 {
      LexesOrderTerm(os[0], r, ts);
    } else {
      var s1, t1 := OrderTexts(os[1..]) + r, OrderTokens(os[1..]) + ts;
      LexesOrder(os[1..], r, ts);
      LexesSpace(s1, t1);
      LexesPunct(',', " " + s1, t1);
      LexesOrderTerm(os[0], [','] + (" " + s1), [Punct(',')] + t1);
      assert OrderTexts(os) == OrderText(os[0]) + ", " + OrderTexts(os[1..]);
      CommaText(OrderText(os[0]), OrderTexts(os[1..]), r);
      var head, tail := TermTokens(os[0]), OrderTokens(os[1..]);
      assert head + ([Punct(',')] + tail) == head + [Punct(',')] + tail;
      CommaTokens(head, tail, ts);
    }
  }

  lemma {:induction false} LexesOrderClause(os: seq<OrderTerm>, r: string, ts: seq<Token>)
    requires (forall o :: o in os ==> Relexable(o.field)) && Lexes(r, ts) && AtBoundary(r)
    ensures Lexes(OrderClause(os) + r, OrderClauseTokens(os) + ts) && AtBoundary(OrderClause(os) + r)
  {
    hide Lexes, Relexable, OrderTexts, OrderTokens;
    if os == [] {
      assert "" + r == r && [] + ts == ts;
    } else {
      var s1, t1 := OrderTexts(os) + r, OrderTokens(os) + ts;
      LexesOrder(os, r, ts);
      LexesSpace(s1, t1);
      LexesKeyword("BY", "by", " " + s1, t1);
      var s2, t2 := "BY" + (" " + s1), [Keyword("by")] + t1;
      LexesSpace(s2, t2);
      LexesKeyword("ORDER", "order", " " + s2, t2);
      LexesSpace("ORDER" + (" " + s2), [Keyword("order")] + t2);
      assert OrderClause(os) + r == " " + ("ORDER" + (" " + s2));
      assert OrderClauseTokens(os) + ts == [Keyword("order")] + t2;
    }
  }

  lemma {:induction false} LexesCondition(q: Query, r: string, ts: seq<Token>)
    requires Sayable(q) && Said(q).Some? && Lexes(r, ts) && AtBoundary(r)
    ensures QueryToWhere(q) != ""
    ensures Lexes(" WHERE " + QueryToWhere(q) + r, [Keyword("where")] + Tokens(Said(q).value) + ts)
  {
    hide Lexes, Tokens, Said, Sayable, QueryToWhere, Says;
    var text, t := QueryToWhere(q), Said(q).value;
    QuerySays(q);
    SaysSomething(text, t);
    SaysThen(text, t, r, ts);
    var s1, t1 := text + r, Tokens(t) + ts;
    LexesSpace(s1, t1);
    LexesKeyword("WHERE", "where", " " + s1, t1);
    LexesSpace("WHERE" + (" " + s1), [Keyword("where")] + t1);
    assert " WHERE " + text + r == " " + ("WHERE" + (" " + s1));
    assert [Keyword("where")] + Tokens(t) + ts == [Keyword("where")] + t1;
  }

  lemma {:induction false} LexesWhereClause(q: Query, r: string, ts: seq<Token>)
    requires Sayable(q) && Lexes(r, ts) && AtBoundary(r)
    ensures Lexes(WhereClause(q) + r, WhereTokens(q) + ts)
    ensures AtBoundary(WhereClause(q) + r)
  {
    hide Lexes, Tokens, Said, Sayable, QueryToWhere, Says;
    assert "" + r == r && [] + ts == ts;
    if Said(q).Some? {
      LexesCondition(q, r, ts);
    } else {
      QuerySays(q);
    }
  }

  lemma {:induction false} LexesHead(index: string, r: string, ts: seq<Token>)
    requires Relexable(index) && Lexes(r, ts) && AtBoundary(r)
    ensures Lexes("SELECT * FROM " + QuoteIdent(index) + r,
                  [Keyword("select")] + ([Operator("*")] + ([Keyword("from")] + ([Ident(index)] + ts))))
  {
    hide Lexes, Relexable, QuoteIdent;
    var s1, t1 := QuoteIdent(index) + r, [Ident(index)] + ts;
    LexesIdent(index, r, ts);
    LexesSpace(s1, t1);
    LexesKeyword("FROM", "from", " " + s1, t1);
    var s2, t2 := "FROM" + (" " + s1), [Keyword("from")] + t1;
    LexesSpace(s2, t2);
    LexesEmit("*", " " + s2, Operator("*"), t2);
    var s3, t3 := "*" + (" " + s2), [Operator("*")] + t2;
    LexesSpace(s3, t3);
    LexesKeyword("SELECT", "select", " " + s3, t3);
    assert "SELECT * FROM " + QuoteIdent(index) + r == "SELECT" + (" " + s3);
  }

  /** A body and an index with names that survive printing, literals with an exact text, sizes within 64 bits. */
  predicate PrintableBody(index: string, b: Body) {
    && Relexable(index) && Sayable(b.query) && InRange64(b.from) && InRange64(b.size)
    && forall o :: o in b.sort ==> Relexable(o.field)
  }

  function TailTokens(from: Option<int>, size: Option<int>): seq<Token> {
    NumberTokens("offset", from) + (NumberTokens("limit", size) + [Eof])
  }

  lemma {:induction false} FiveParts(a: string, b: string, c: string, d: string, e: string)
    ensures a + b + c + d + e == a + (b + (c + (d + (e + ""))))
  {
  }

  lemma {:induction false} LexesBody(index: string, b: Body)
    requires PrintableBody(index, b)
    ensures Lexes(BodyToSQL(b, index),
                  [Keyword("select")] + ([Operator("*")] + ([Keyword("from")] + ([Ident(index)] +
                    (WhereTokens(b.query) + (OrderClauseTokens(b.sort) + TailTokens(b.from, b.size)))))))
  {
    LexesEmpty();
    hide Lexes, Relexable, Sayable, Clause, OrderClause, WhereClause, NumberTokens, OrderClauseTokens, WhereTokens;
    var limit, offset := Clause("LIMIT", b.size), Clause("OFFSET", b.from);
    var order, cond, head := OrderClause(b.sort), WhereClause(b.query), "SELECT * FROM " + QuoteIdent(index);
    LexesClause("LIMIT", "limit", b.size, "", [Eof]);
    LexesClause("OFFSET", "offset", b.from, limit + "", NumberTokens("limit", b.size) + [Eof]);
    LexesOrderClause(b.sort, offset + (limit + ""), TailTokens(b.from, b.size));
    LexesWhereClause(b.query, order + (offset + (limit + "")), OrderClauseTokens(b.sort) + TailTokens(b.from, b.size));
    LexesHead(index, cond + (order + (offset + (limit + ""))),
              WhereTokens(b.query) + (OrderClauseTokens(b.sort) + TailTokens(b.from, b.size)));
    FiveParts(head, cond, order, offset, limit);
  }

  // ------------------------------------------------------------------
  // Parsing
  // ------------------------------------------------------------------

  lemma {:induction false} NumberReads(n: int)
    requires 0 <= n <= MAX_INT64
    ensures Atoi(FormatInt(n)) == Ok(n)
  {
    NatOfDigits(n);
  }

  function Amount(n: Option<int>): int { match n case None => 0 case Some(v) => v }

  /** The parser accepts LIMIT before OFFSET only, and the printer writes them the other way round. */
  lemma {:induction false} TailReads(from: Option<int>, size: Option<int>)
    requires InRange64(from) && InRange64(size)
    ensures Ends(TailTokens(from, size)) && TailTokens(from, size)[0] in {Keyword("offset"), Keyword("limit"), Eof}
    ensures PTail(TailTokens(from, size)) ==
            if from.Some? && size.Some? then Err(TrailingToken) else Ok((Amount(size), Amount(from)))
  {
    hide Atoi;
    if from.Some? {
      NumberReads(from.value);
    }
    if size.Some? {
      NumberReads(size.value);
    }
    var limit := NumberTokens("limit", size) + [Eof];
    var ts := TailTokens(from, size);
    if from.Some? {
      assert ts[2..] == limit;
    } else {
      assert ts == limit;
    }
    if size.Some? {
      assert limit[2..] == [Eof];
    }
  }

  lemma {:induction false} OrderTermReads(o: OrderTerm, rest: seq<Token>)
    requires Ends(rest) && rest[0] != Punct(',')
    ensures Ends(TermTokens(o) + rest)
    ensures POrderTerms(TermTokens(o) + rest) == Ok(([o], rest))
  {
    hide Remains;
    assert (TermTokens(o) + rest)[2..] == rest;
    assert o == OrderTerm(o.field, o.desc);
  }

  lemma {:induction false} OrderTermsStep(o: OrderTerm, more: seq<Token>, os: seq<OrderTerm>, rest: seq<Token>)
    requires Ends(more) && POrderTerms(more) == Ok((os, rest))
    ensures Ends(TermTokens(o) + ([Punct(',')] + more))
    ensures POrderTerms(TermTokens(o) + ([Punct(',')] + more)) == Ok(([o] + os, rest))
  {
    hide Remains;
    var ts := TermTokens(o) + ([Punct(',')] + more);
    assert ts[2..] == [Punct(',')] + more;
    assert ([Punct(',')] + more)[1..] == more;
    assert o == OrderTerm(o.field, o.desc);
  }

  lemma {:induction false} OrderReads(os: seq<OrderTerm>, rest: seq<Token>)
    requires os != [] && Ends(rest) && rest[0] != Punct(',')
    ensures Ends(OrderTokens(os) + rest)
    ensures POrderTerms(OrderTokens(os) + rest) == Ok((os, rest))
  {
    hide Remains, POrderTerms, Ends, TermTokens;
    if |os| == 1 {
      OrderTermReads(os[0], rest);
      assert os == [os[0]];
    } else {
      OrderReads(os[1..], rest);
      OrderTermsStep(os[0], OrderTokens(os[1..]) + rest, os[1..], rest);
      var first, comma, more := TermTokens(os[0]), [Punct(',')], OrderTokens(os[1..]);
      assert first + (comma + more) + rest == first + (comma + (more + rest));
      assert os == [os[0]] + os[1..];
    }
  }

  lemma {:induction false} OrderClauseReads(os: seq<OrderTerm>, rest: seq<Token>)
    requires Ends(rest) && rest[0] != Punct(',') && rest[0] != Keyword("order")
    ensures Ends(OrderClauseTokens(os) + rest)
    ensures POrderBy(OrderClauseTokens(os) + rest) == Ok((os, rest))
  {
    hide Remains, POrderTerms, OrderTokens;
    if os == [] {
      assert [] + rest == rest;
    } else {
      var more := OrderTokens(os) + rest;
      OrderReads(os, rest);
      Push(Keyword("by"), more);
      Push(Keyword("order"), [Keyword("by")] + more);
      assert OrderClauseTokens(os) + rest == [Keyword("order")] + ([Keyword("by")] + more);
    }
  }

  /** What is read back of a printed query. */
  function ReadWhere(q: Query): Result<Option<Expr>, ParseError> {
    if Said(q).None? then Ok(None) else if Excludes(q) then Err(ExpectOperator) else Ok(Some(ReadQuery(q)))
  }

  lemma {:induction false} WhereReads(q: Query, rest: seq<Token>)
    requires Sayable(q) && Ends(rest) && Connective(rest[0]).None? && rest[0] != Keyword("where")
    ensures Ends(WhereTokens(q) + rest)
    ensures PWhere(WhereTokens(q) + rest) == (match ReadWhere(q) case Err(e) => Err(e) case Ok(w) => Ok((w, rest)))
  {
    hide Remains, PExpr, Tokens, Said, Sayable, Excludes, Written, HasNot;
    if Said(q).None? {
      assert [] + rest == rest;
    } else {
      var more := Tokens(Said(q).value) + rest;
      QueryShape(q);
      SaidReads(Said(q).value, rest);
      Push(Keyword("where"), more);
      assert WhereTokens(q) + rest == [Keyword("where")] + more;
    }
  }

  function BodyRead(index: string, b: Body): Result<SelectStmt, ParseError> {
    match ReadWhere(b.query)
    case Err(e) => Err(e)
    case Ok(w) =>
      if b.from.Some? && b.size.Some? then Err(TrailingToken)
      else Ok(SelectStmt([], true, index, w, b.sort, Amount(b.size), Amount(b.from)))
  }

  /** Everything from WHERE on reads back, unless there is a must_not or both OFFSET and LIMIT are present. */
  lemma {:induction false} BodyReads(index: string, b: Body)
    requires Sayable(b.query) && InRange64(b.from) && InRange64(b.size)
    ensures var ts := WhereTokens(b.query) + (OrderClauseTokens(b.sort) + TailTokens(b.from, b.size));
            && Ends(ts)
            && PBody(ts, [], true, index) == BodyRead(index, b)
  {
    hide Remains, PWhere, POrderBy, PTail, TailTokens, WhereTokens, ReadWhere, Sayable;
    TailReads(b.from, b.size);
    OrderClauseReads(b.sort, TailTokens(b.from, b.size));
    var rest := OrderClauseTokens(b.sort) + TailTokens(b.from, b.size);
    assert rest[0] == if b.sort == [] then TailTokens(b.from, b.size)[0] else Keyword("order");
    WhereReads(b.query, rest);
  }

  lemma {:induction false} HeadReads(index: string, rest: seq<Token>)
    requires Ends(rest)
    ensures var ts := [Keyword("select")] + ([Operator("*")] + ([Keyword("from")] + ([Ident(index)] + rest)));
            Ends(ts) && PSelect(ts) == PBody(rest, [], true, index)
  {
    hide Remains, PBody;
    Push(Ident(index), rest);
    Push(Keyword("from"), [Ident(index)] + rest);
    Push(Operator("*"), [Keyword("from")] + ([Ident(index)] + rest));
    Push(Keyword("select"), [Operator("*")] + ([Keyword("from")] + ([Ident(index)] + rest)));
  }

  // ------------------------------------------------------------------
  // Main results
  // ------------------------------------------------------------------

  lemma {:induction false} BodyRoundTrip(index: string, b: Body)
    requires PrintableBody(index, b)
    ensures ReadSelect(BodyToSQL(b, index)) == BodyRead(index, b)
  {
    hide PSelect, PBody, BodyToSQL, WhereTokens, OrderClauseTokens, TailTokens, BodyRead, Sayable;
    LexesBody(index, b);
    BodyReads(index, b);
    HeadReads(index, WhereTokens(b.query) + (OrderClauseTokens(b.sort) + TailTokens(b.from, b.size)));
  }

  /** The text of any body reads back if and only if no must_not clause is printed and it does not have both an offset
      and a size. Index, order, offset and size are unchanged. If the query says all it means, with no alternatives
      beside other parts, the statement selects what the query selects. */
  lemma {:induction false} BodyTextReads(index: string, b: Body, d: Doc)
    requires PrintableBody(index, b)
    ensures var r := ReadSelect(BodyToSQL(b, index));
      && (r.Ok? <==> !Excludes(b.query) && !(b.from.Some? && b.size.Some?))
      && (r.Ok? ==>
            && r.value == SelectStmt([], true, index, r.value.where, b.sort, Amount(b.size), Amount(b.from))
            && (r.value.where.None? <==> Silent(b.query))
            && (Lossless(b.query) && Apart(b.query) ==>
                  Matches(b.query, d) == (r.value.where.Some? ==> Satisfies(r.value.where.value, d))))
  {
    hide ReadSelect, BodyToSQL, Sayable, Said, Silent, Excludes, Matches, Satisfies, Lossless, Apart, Relexable;
    BodyRoundTrip(index, b);
    SilentIsUnsaid(b.query);
    if Said(b.query).None? {
      QueryShape(b.query);
    }
    if Lossless(b.query) && Apart(b.query) {
      if Silent(b.query) {
        SaidMeans(b.query, d);
      } else {
        hide PExpr, QueryToWhere;
        QueryTextMeans(b.query, d);
      }
    }
  }

  /** A statement whose printed form keeps its names and values. */
  predicate PrintableStmt(s: SelectStmt) {
    && Relexable(s.index) && (forall o :: o in s.orderBy ==> Relexable(o.field))
    && (s.where.Some? ==> AllWritable(s.where.value))
    && s.limit <= MAX_INT64 && s.offset <= MAX_INT64
  }

  function PrintedText(s: SelectStmt): string { BodyToSQL(StmtToBody(s), s.index) }

  /** The printed statement reads back if and only if its condition has no != and it does not have both an offset and a
      size; then the index, the order, the offset and the size are unchanged, and the condition is the one its text
      denotes, or gone if all of it is LIKE. With a != the parser misses an operator, whatever else there is. */
  lemma {:induction false} StatementRoundTrip(s: SelectStmt)
    requires PrintableStmt(s)
    ensures var b, r := StmtToBody(s), ReadSelect(PrintedText(s));
      if s.where.Some? && Negates(s.where.value) then r == Err(ExpectOperator)
      else if b.from.Some? && b.size.Some? then r == Err(TrailingToken)
      else
        && r.Ok?
        && r.value == SelectStmt([], true, s.index, r.value.where, s.orderBy, Amount(b.size), Amount(b.from))
        && (r.value.where.None? <==> s.where.None? || OnlyLikes(s.where.value))
        && (s.where.Some? && Shown(s.where.value).Some? ==> r.value.where == Some(Read(s.where.value)))
  {
    var b := StmtToBody(s);
    if s.where.Some? {
      WritableIsSayable(s.where.value);
      ShownShape(s.where.value);
    }
    assert b.query == if s.where.None? then MatchAll else ExprToQuery(s.where.value);
    assert InRange64(b.from) && InRange64(b.size) && b.sort == s.orderBy;
    hide ReadSelect, BodyToSQL, StmtToBody, Negates, OnlyLikes, Relexable, AllWritable, Excludes, Silent;
    BodyRoundTrip(s.index, b);
  }

  /** SELECT *: reading back succeeds without a != if there is a limit or an offset, but not both. It returns the
      statement itself, up to a condition that holds of the same documents if the statement's has no LIKE and no OR
      beneath an AND. */
  lemma {:induction false} StatementMeaningKept(s: SelectStmt, d: Doc)
    requires PrintableStmt(s) && s.all && s.fields == [] && 0 <= s.limit && 0 <= s.offset
    ensures ReadSelect(PrintedText(s)).Ok? <==>
            (s.limit == 0 || s.offset == 0) && !(s.where.Some? && Negates(s.where.value))
    ensures ReadSelect(PrintedText(s)).Ok? ==>
              var t := ReadSelect(PrintedText(s)).value;
              && t == s.(where := t.where)
              && (s.where.Some? && NoLike(s.where.value) && NoOrUnderAnd(s.where.value) ==>
                    t.where.Some? && Satisfies(t.where.value, d) == Satisfies(s.where.value, d))
  {
    StatementRoundTrip(s);
    hide ReadSelect, PrintedText, Relexable;
    if s.where.Some? && !Negates(s.where.value) && NoLike(s.where.value) && NoOrUnderAnd(s.where.value) {
      ConditionKept(s.where.value, d);
    }
  }

  lemma {:induction false} ConditionKept(e: Expr, d: Doc)
    requires AllWritable(e) && !Negates(e) && NoLike(e) && NoOrUnderAnd(e)
    ensures !OnlyLikes(e) && Shown(e).Some? && Satisfies(Read(e), d) == Satisfies(e, d)
  {
    WithoutLikePrintable(e);
    ShownTreeOf(e);
    ShownShape(e);
    WhereRoundTrip(e, d);
    assert Read(e) == Reparsed(e);
  }
}
