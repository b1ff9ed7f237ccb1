/** SELECT statements as they may be written, and what they ask for (pkg/sqldsl/sqldsl.go). */
module SqlWritten {
  import opened Common
  import opened SqlLexer
  import opened SqlParser
  import opened SqlRender
  import opened SqlDsl
  import opened SqlSelect
  import opened SqlStatement

  datatype Way = Unsaid | Ascending | Descending

  datatype Order = Order(field: string, way: Way)

  /** A statement with the choices its writer has: no fields stand for *, a condition has the parentheses it was given,
      and what follows the statement is the end or a semicolon and anything behind it. */
  datatype Draft = Draft(
    fields: seq<FieldRef>,
    index: string,
    where: Option<Tree>,
    orders: seq<Order>,
    limit: Option<int>,
    offset: Option<int>,
    rest: seq<Token>)

  predicate Valid(d: Draft) {
    && (d.where.Some? ==> WellFormed(d.where.value)) && InRange64(d.limit) && InRange64(d.offset)
    && Ends(d.rest) && (d.rest[0] == Eof || d.rest[0] == Punct(';'))
  }

  // ------------------------------------------------------------------
  // Its tokens
  // ------------------------------------------------------------------

  function FieldTokens(f: FieldRef): seq<Token> {
    match f
    case Field(name) => [Ident(name)]
    case Count(None) => [Keyword("count"), Punct('('), Operator("*"), Punct(')')]
    case Count(Some(a)) => [Keyword("count"), Punct('('), Operator("*"), Punct(')'), Keyword("as"), Ident(a)]
  }

  function FieldsTokens(fs: seq<FieldRef>): seq<Token> {
    if fs == [] then []
    else if |fs| == 1 then FieldTokens(fs[0])
    else FieldTokens(fs[0]) + ([Punct(',')] + FieldsTokens(fs[1..]))
  }

  function ListTokens(fs: seq<FieldRef>): seq<Token> { if fs == [] then [Operator("*")] else FieldsTokens(fs) }

  function WayTokens(o: Order): seq<Token> {
    [Ident(o.field)]
    + (if o.way.Ascending? then [Keyword("asc")] else if o.way.Descending? then [Keyword("desc")] else [])
  }

  function WaysTokens(os: seq<Order>): seq<Token> {
    if os == [] then []
    else if |os| == 1 then WayTokens(os[0])
    else WayTokens(os[0]) + ([Punct(',')] + WaysTokens(os[1..]))
  }

  function OrdersTokens(os: seq<Order>): seq<Token> {
    if os == [] then [] else [Keyword("order"), Keyword("by")] + WaysTokens(os)
  }

  function ConditionTokens(where: Option<Tree>): seq<Token> {
    match where case None => [] case Some(t) => [Keyword("where")] + Tokens(t)
  }

  function EndTokens(d: Draft): seq<Token> {
    NumberTokens("limit", d.limit) + (NumberTokens("offset", d.offset) + d.rest)
  }

  function DraftTokens(d: Draft): seq<Token> {
    [Keyword("select")] + (ListTokens(d.fields) + ([Keyword("from")] + ([Ident(d.index)]
      + (ConditionTokens(d.where) + (OrdersTokens(d.orders) + EndTokens(d))))))
  }

  /** Without a direction the order is ascending. */
  function Terms(os: seq<Order>): seq<OrderTerm> {
    if os == [] then [] else [OrderTerm(os[0].field, os[0].way == Descending)] + Terms(os[1..])
  }

  function Meant(d: Draft): SelectStmt {
    SelectStmt(d.fields, d.fields == [], d.index, match d.where case None => None case Some(t) => Some(Strip(t)),
               Terms(d.orders), Amount(d.limit), Amount(d.offset))
  }

  // ------------------------------------------------------------------
  // The parser reads it as it is meant
  // ------------------------------------------------------------------

  lemma {:induction false} FieldReads(f: FieldRef, rest: seq<Token>)
    requires Ends(rest) && rest[0] != Keyword("as")
    ensures Ends(FieldTokens(f) + rest) && PField(FieldTokens(f) + rest) == Ok((f, rest))
    ensures (FieldTokens(f) + rest)[0] != Operator("*")
  {
    hide Remains;
    var ts := FieldTokens(f) + rest;
    match f
    case Field(name) => assert ts[1..] == rest;
    case Count(a) =>
      var tail := if a.None? then rest else [Keyword("as"), Ident(a.value)] + rest;
      assert a.Some? ==> tail[2..] == rest;
      assert ts == [Keyword("count")] + ([Punct('(')] + ([Operator("*")] + ([Punct(')')] + tail)));
      CountReads(tail);
  }

  lemma {:induction false} CountReads(tail: seq<Token>)
    requires Ends(tail)
    ensures var us := [Punct('(')] + ([Operator("*")] + ([Punct(')')] + tail));
      Ends(us) && Ends([Keyword("count")] + us) && PField([Keyword("count")] + us) == PCount(us)
      && PCount(us) ==
         if tail[0] != Keyword("as") then Ok((Count(None), tail))
         else if !tail[1].Ident? then Err(ExpectAlias)
         else Ok((Count(Some(tail[1].name)), tail[2..]))
  {
    hide Remains;
    var us := [Punct('(')] + ([Operator("*")] + ([Punct(')')] + tail));
    Push(Punct(')'), tail);
    Push(Operator("*"), [Punct(')')] + tail);
    Push(Punct('('), [Operator("*")] + ([Punct(')')] + tail));
    Push(Keyword("count"), us);
  }

  lemma {:induction false} FieldsStep(f: FieldRef, more: seq<Token>, fs: seq<FieldRef>, rest: seq<Token>)
    requires Ends(more) && PFields(more) == Ok((fs, rest))
    ensures var ts := FieldTokens(f) + ([Punct(',')] + more);
      Ends(ts) && PFields(ts) == Ok(([f] + fs, rest)) && ts[0] != Operator("*")
  {
    hide Remains, PField, FieldTokens;
    Push(Punct(','), more);
    FieldReads(f, [Punct(',')] + more);
  }

  lemma {:induction false} FieldsRead(fs: seq<FieldRef>, rest: seq<Token>)
    requires fs != [] && Ends(rest) && rest[0] != Keyword("as") && rest[0] != Punct(',')
    ensures var ts := FieldsTokens(fs) + rest; Ends(ts) && PFields(ts) == Ok((fs, rest)) && ts[0] != Operator("*")
  {
    hide Remains, PField, FieldTokens;
    if |fs| == 1 {
      FieldReads(fs[0], rest);
      assert fs == [fs[0]];
    } else {
      FieldsRead(fs[1..], rest);
      hide PFields, Ends;
      FieldsStep(fs[0], FieldsTokens(fs[1..]) + rest, fs[1..], rest);
      var first, comma, more := FieldTokens(fs[0]), [Punct(',')], FieldsTokens(fs[1..]);
      assert first + (comma + more) + rest == first + (comma + (more + rest));
      assert fs == [fs[0]] + fs[1..];
    }
  }

  lemma {:induction false} ListReads(fs: seq<FieldRef>, rest: seq<Token>)
    requires Ends(rest) && rest[0] != Keyword("as") && rest[0] != Punct(',')
    ensures Ends(ListTokens(fs) + rest) && PFieldList(ListTokens(fs) + rest) == Ok(((fs, fs == []), rest))
  {
    hide Remains, PFields, FieldsTokens;
    if fs == [] {
      Push(Operator("*"), rest);
    } else {
      FieldsRead(fs, rest);
    }
  }

  lemma {:induction false} WayReads(o: Order, rest: seq<Token>)
    requires Ends(rest) && rest[0] != Keyword("asc") && rest[0] != Keyword("desc")
    ensures var ts, term := WayTokens(o) + rest, OrderTerm(o.field, o.way == Descending);
      && Ends(ts)
      && POrderTerms(ts) ==
         if rest[0] != Punct(',') then Ok(([term], rest))
         else
           match POrderTerms(rest[1..])
           case Err(e) => Err(e)
           case Ok((terms, rest')) => Ok(([term] + terms, rest'))
  {
    hide Remains;
    var ts := WayTokens(o) + rest;
    if o.way.Unsaid? {
      assert ts[1..] == rest;
    } else {
      assert ts[2..] == rest;
    }
  }

  lemma {:induction false} WaysRead(os: seq<Order>, rest: seq<Token>)
    requires os != [] && Ends(rest) && rest[0] !in {Punct(','), Keyword("asc"), Keyword("desc")}
    ensures Ends(WaysTokens(os) + rest) && POrderTerms(WaysTokens(os) + rest) == Ok((Terms(os), rest))
  {
    hide Remains, WayTokens, POrderTerms;
    assert Terms(os) == [OrderTerm(os[0].field, os[0].way == Descending)] + Terms(os[1..]);
    if |os| == 1 {
      WayReads(os[0], rest);
      assert Terms(os) == [OrderTerm(os[0].field, os[0].way == Descending)];
    } else {
      var more := WaysTokens(os[1..]) + rest;
      WaysRead(os[1..], rest);
      Push(Punct(','), more);
      WayReads(os[0], [Punct(',')] + more);
      var first, comma := WayTokens(os[0]), [Punct(',')];
      assert first + (comma + WaysTokens(os[1..])) + rest == first + (comma + more);
    }
  }

  lemma {:induction false} OrdersRead(os: seq<Order>, rest: seq<Token>)
    requires Ends(rest) && rest[0] !in {Punct(','), Keyword("asc"), Keyword("desc"), Keyword("order")}
    ensures var ts := OrdersTokens(os) + rest;
      Ends(ts) && POrderBy(ts) == Ok((Terms(os), rest)) && ts[0] == if os == [] then rest[0] else Keyword("order")
  {
    hide Remains, POrderTerms, WaysTokens;
    if os == [] {
      assert [] + rest == rest;
    } else {
      var more := WaysTokens(os) + rest;
      WaysRead(os, rest);
      Push(Keyword("by"), more);
      Push(Keyword("order"), [Keyword("by")] + more);
      assert OrdersTokens(os) + rest == [Keyword("order")] + ([Keyword("by")] + more);
    }
  }

  lemma {:induction false} NumberClauseReads(w: string, n: Option<int>, rest: seq<Token>)
    requires InRange64(n) && Ends(rest) && rest[0] != Keyword(w)
    ensures var ts := NumberTokens(w, n) + rest;
      Ends(ts) && PNumberClause(ts, w) == Ok((Amount(n), rest)) && ts[0] == if n.None? then rest[0] else Keyword(w)
  {
    hide Remains, Atoi;
    if n.None? {
      assert [] + rest == rest;
    } else {
      NumberReads(n.value);
      assert (NumberTokens(w, n) + rest)[2..] == rest;
    }
  }

  /** LIMIT and then OFFSET, either or both. */
  lemma {:induction false} EndReads(d: Draft)
    requires Valid(d)
    ensures var ts := EndTokens(d);
      Ends(ts) && PTail(ts) == Ok((Amount(d.limit), Amount(d.offset)))
      && ts[0] in {Keyword("limit"), Keyword("offset"), Eof, Punct(';')}
  {
    hide Remains, PNumberClause, NumberTokens, WellFormed;
    NumberClauseReads("offset", d.offset, d.rest);
    NumberClauseReads("limit", d.limit, NumberTokens("offset", d.offset) + d.rest);
  }

  lemma {:induction false} ConditionReads(where: Option<Tree>, rest: seq<Token>)
    requires (where.Some? ==> WellFormed(where.value)) && Ends(rest)
    requires Connective(rest[0]).None? && rest[0] != Keyword("where")
    ensures var ts := ConditionTokens(where) + rest;
      && Ends(ts)
      && PWhere(ts) == Ok((match where case None => None case Some(t) => Some(Strip(t)), rest))
  {
    hide Remains, PExpr, Tokens, WellFormed;
    if where.None? {
      assert [] + rest == rest;
    } else {
      TreeReadsBack(where.value, rest);
      Push(Keyword("where"), Tokens(where.value) + rest);
      assert ConditionTokens(where) + rest == [Keyword("where")] + (Tokens(where.value) + rest);
    }
  }

  lemma {:induction false} RestReads(d: Draft)
    requires Valid(d)
    ensures var ts := ConditionTokens(d.where) + (OrdersTokens(d.orders) + EndTokens(d));
      Ends(ts) && PBody(ts, d.fields, d.fields == [], d.index) == Ok(Meant(d))
  {
    hide Remains, PWhere, POrderBy, PTail, EndTokens, OrdersTokens, ConditionTokens, WellFormed, Strip;
    EndReads(d);
    OrdersRead(d.orders, EndTokens(d));
    ConditionReads(d.where, OrdersTokens(d.orders) + EndTokens(d));
  }

  /** Every statement that can be written is read as it is meant: its fields and counts with their aliases, the
      condition with its parentheses, the order with ascending as the default, LIMIT before OFFSET. */
  lemma {:induction false} DraftReads(d: Draft)
    requires Valid(d)
    ensures Ends(DraftTokens(d)) && PSelect(DraftTokens(d)) == Ok(Meant(d))
  {
    hide Remains, PBody, PFieldList, ListTokens, EndTokens, OrdersTokens, ConditionTokens, Valid, Meant;
    var tail := ConditionTokens(d.where) + (OrdersTokens(d.orders) + EndTokens(d));
    RestReads(d);
    Push(Ident(d.index), tail);
    Push(Keyword("from"), [Ident(d.index)] + tail);
    var us := [Keyword("from")] + ([Ident(d.index)] + tail);
    ListReads(d.fields, us);
    Push(Keyword("select"), ListTokens(d.fields) + us);
  }

  // ------------------------------------------------------------------
  // What a statement asks for
  // ------------------------------------------------------------------

  /** The hits a body asks for of those it selects, with so many if it does not say how many. */
  function Page<T>(hits: seq<T>, b: Body, most: nat): seq<T> {
    var from := if b.from.Some? && b.from.value > 0 then Least(b.from.value, |hits|) else 0;
    var size := if b.size.Some? && b.size.value >= 0 then b.size.value else most;
    hits[from..Least(from + size, |hits|)]
  }

  function Least(a: int, b: int): int { if a < b then a else b }

  /** A count asks for the number of hits and for none of them. Any other statement asks for the hits from its offset
      on, as many as its limit says, with the fields it names; all for the documents its condition holds of. */
  lemma {:induction false} StatementAsks<T>(s: SelectStmt, hits: seq<T>, most: nat, d: Doc)
    requires (s.where.Some? ==> KnownOps(s.where.value)) && 0 <= s.limit && 0 <= s.offset
    ensures var b, counts := StmtToBody(s), !s.all && exists i :: 0 <= i < |s.fields| && s.fields[i].Count?;
      && Matches(b.query, d) == (s.where.Some? ==> Satisfies(s.where.value, d))
      && b.countAgg == counts && (counts ==> Page(hits, b, most) == [])
      && (!counts ==>
            var from := Least(s.offset, |hits|);
            Page(hits, b, most) == hits[from..Least(from + (if s.limit > 0 then s.limit else most), |hits|)])
      && b.sort == s.orderBy
  {
    hide Matches, Satisfies;
    if s.where.Some? {
      CompilationPreservesMeaning(s.where.value, d);
    } else {
      AllMatch(d);
    }
  }

  lemma {:induction false} AllMatch(d: Doc)
    ensures Matches(MatchAll, d)
  {
  }

  /** The fields asked for are those named, in order; none are singled out if none is named. */
  lemma {:induction false} FieldsAsked(s: SelectStmt, n: nat)
    requires n < |s.fields| && s.fields[n].Field? && !s.all
    ensures var b := StmtToBody(s);
      b.source.Some? && exists k :: 0 <= k < |b.source.value| && b.source.value[k] == s.fields[n].name
                                    && k == |FieldNames(s.fields[..n])|
  {
    NamesSplit(s.fields, n);
  }

  lemma {:induction false} NamesSplit(fs: seq<FieldRef>, n: nat)
    requires n < |fs| && fs[n].Field?
    ensures var k := |FieldNames(fs[..n])|; k < |FieldNames(fs)| && FieldNames(fs)[k] == fs[n].name
  {
    if n > 0 {
      NamesSplit(fs[1..], n - 1);
      assert fs[..n][1..] == fs[1..][..n-1];
    } else {
      assert fs[..0] == [];
    }
  }
}
