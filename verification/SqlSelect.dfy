/** Whole SELECT statements: parsing, compilation to a search body, printing, and reading back
    (pkg/sqldsl/sqldsl.go). */
module SqlSelect {
  import opened Common
  import opened Text
  import opened SqlLexer
  import opened SqlParser
  import opened SqlDsl

  datatype FieldRef = Field(name: string) | Count(alias: Option<string>)

  datatype OrderTerm = OrderTerm(field: string, desc: bool)

  /** `all` is SELECT *; a limit or offset of 0 means none. */
  datatype SelectStmt = SelectStmt(
    fields: seq<FieldRef>,
    all: bool,
    index: string,
    where: Option<Expr>,
    orderBy: seq<OrderTerm>,
    limit: int,
    offset: int)

  // ------------------------------------------------------------------
  // The grammar
  // ------------------------------------------------------------------

  function PKeyword(ts: seq<Token>, w: string): (r: Result<seq<Token>, ParseError>)
    requires Ends(ts)
    ensures r.Ok? ==> Remains(r.value, ts)
  {
    if ts[0] == Keyword(w) then Ok(ts[1..]) else Err(ExpectKeyword(w))
  }

  function PCount(ts: seq<Token>): (r: PResult<FieldRef>)
    requires Ends(ts)
    ensures r.Ok? ==> Remains(r.value.1, ts)
  {
    match PPunct(ts, '(')
    case Err(e) => Err(e)
    case Ok(us) =>
      if us[0] != Operator("*") then Err(ExpectStar)
      else
        match PPunct(us[1..], ')')
        case Err(e) => Err(e)
        case Ok(ws) =>
          if ws[0] != Keyword("as") then Ok((Count(None), ws))
          else if !ws[1].Ident? then Err(ExpectAlias)
          else Ok((Count(Some(ws[1].name)), ws[2..]))
  }

  function PField(ts: seq<Token>): (r: PResult<FieldRef>)
    requires Ends(ts)
    ensures r.Ok? ==> Remains(r.value.1, ts)
  {
    if ts[0] == Keyword("count") then PCount(ts[1..])
    else if ts[0].Ident? then Ok((Field(ts[0].name), ts[1..]))
    else Err(ExpectSelectItem)
  }

  function PFields(ts: seq<Token>): (r: PResult<seq<FieldRef>>)
    requires Ends(ts)
    ensures r.Ok? ==> Remains(r.value.1, ts)
    decreases |ts|
  {
    match PField(ts)
    case Err(e) => Err(e)
    case Ok((f, rest)) =>
      if rest[0] != Punct(',') then Ok(([f], rest))
      else
        match PFields(rest[1..])
        case Err(e) => Err(e)
        case Ok((fs, rest')) => Ok(([f] + fs, rest'))
  }

  function PFieldList(ts: seq<Token>): (r: PResult<(seq<FieldRef>, bool)>)
    requires Ends(ts)
    ensures r.Ok? ==> Remains(r.value.1, ts)
  {
    if ts[0] == Operator("*") then Ok((([], true), ts[1..]))
    else
      match PFields(ts)
      case Err(e) => Err(e)
      case Ok((fs, rest)) => Ok(((fs, false), rest))
  }

  function PWhere(ts: seq<Token>): (r: PResult<Option<Expr>>)
    requires Ends(ts)
    ensures r.Ok? ==> r.value.1 == ts || Remains(r.value.1, ts)
  {
    if ts[0] != Keyword("where") then Ok((None, ts))
    else
      match PExpr(ts[1..], 0)
      case Err(e) => Err(e)
      case Ok((e, rest)) => Ok((Some(e), rest))
  }

  function POrderTerms(ts: seq<Token>): (r: PResult<seq<OrderTerm>>)
    requires Ends(ts)
    ensures r.Ok? ==> Remains(r.value.1, ts)
    decreases |ts|
  {
    if !ts[0].Ident? then Err(ExpectOrderField)
    else
      var directed := ts[1] == Keyword("asc") || ts[1] == Keyword("desc");
      var term := OrderTerm(ts[0].name, ts[1] == Keyword("desc"));
      var rest := if directed then ts[2..] else ts[1..];
      if rest[0] != Punct(',') then Ok(([term], rest))
      else
        match POrderTerms(rest[1..])
        case Err(e) => Err(e)
        case Ok((terms, rest')) => Ok(([term] + terms, rest'))
  }

  function POrderBy(ts: seq<Token>): (r: PResult<seq<OrderTerm>>)
    requires Ends(ts)
    ensures r.Ok? ==> r.value.1 == ts || Remains(r.value.1, ts)
  {
    if ts[0] != Keyword("order") then Ok(([], ts))
    else
      match PKeyword(ts[1..], "by")
      case Err(e) => Err(e)
      case Ok(us) => POrderTerms(us)
  }

  /** LIMIT n or OFFSET n; 0 when the keyword is absent. */
  function PNumberClause(ts: seq<Token>, w: string): (r: PResult<int>)
    requires Ends(ts)
    ensures r.Ok? ==> r.value.1 == ts || Remains(r.value.1, ts)
  {
    if ts[0] != Keyword(w) then Ok((0, ts))
    else if !ts[1].Number? then Err(ExpectCount)
    else
      match Atoi(ts[1].text)
      case Err(_) => Err(BadCount)
      case Ok(n) => Ok((n, ts[2..]))
  }

  /** What follows WHERE and ORDER BY: LIMIT, then OFFSET, then the end or a semicolon. */
  function PTail(ts: seq<Token>): Result<(int, int), ParseError>
    requires Ends(ts)
  {
    match PNumberClause(ts, "limit")
    case Err(e) => Err(e)
    case Ok((limit, us)) =>
      match PNumberClause(us, "offset")
      case Err(e) => Err(e)
      case Ok((offset, ws)) =>
        if ws[0] == Eof || ws[0] == Punct(';') then Ok((limit, offset)) else Err(TrailingToken)
  }

  function PBody(ts: seq<Token>, fields: seq<FieldRef>, all: bool, index: string): Result<SelectStmt, ParseError>
    requires Ends(ts)
  {
    match PWhere(ts)
    case Err(e) => Err(e)
    case Ok((where, us)) =>
      match POrderBy(us)
      case Err(e) => Err(e)
      case Ok((order, ws)) =>
        match PTail(ws)
        case Err(e) => Err(e)
        case Ok((limit, offset)) => Ok(SelectStmt(fields, all, index, where, order, limit, offset))
  }

  function PSelect(ts: seq<Token>): Result<SelectStmt, ParseError>
    requires Ends(ts)
  {
    match PKeyword(ts, "select")
    case Err(e) => Err(e)
    case Ok(us) =>
      match PFieldList(us)
      case Err(e) => Err(e)
      case Ok((fl, ws)) =>
        match PKeyword(ws, "from")
        case Err(e) => Err(e)
        case Ok(xs) =>
          if !xs[0].Ident? then Err(ExpectIndexName)
          else PBody(xs[1..], fl.0, fl.1, xs[0].name)
  }

  /** Text to statement. */
  function ReadSelect(sql: string): Result<SelectStmt, ParseError> {
    match Lex(sql, 0)
    case Err(e) => Err(BadText(e))
    case Ok(ts) => PSelect(ts)
  }

  // ------------------------------------------------------------------
  // The parser methods
  // ------------------------------------------------------------------

  method ExpectKeywordToken(p: Parser, w: string) returns (r: Result<(), ParseError>)
    requires p.Ready()
    modifies p`pos
    ensures r.Err? ==> PKeyword(old(p.Rest()), w) == Err(r.error)
    ensures r.Ok? ==> p.Ready() && PKeyword(old(p.Rest()), w) == Ok(p.Rest())
  {
    if p.Peek() != Keyword(w) {
      return Err(ExpectKeyword(w));
    }
    var _ := p.Next();
    r := Ok(());
  }

  method ParseCount(p: Parser) returns (r: Result<FieldRef, ParseError>)
    requires p.Ready()
    modifies p`pos
    ensures p.Agrees(r, PCount(old(p.Rest())))
  {
    var open := p.ExpectPunct('(');
    if open.Err? {
      return Err(open.error);
    }
    if p.Peek() != Operator("*") {
      return Err(ExpectStar);
    }
    var _ := p.Next();
    var close := p.ExpectPunct(')');
    if close.Err? {
      return Err(close.error);
    }
    if p.Peek() != Keyword("as") {
      return Ok(Count(None));
    }
    var _ := p.Next();
    var a := p.Next();
    r := if a.Ident? then Ok(Count(Some(a.name))) else Err(ExpectAlias);
  }

  method ParseField(p: Parser) returns (r: Result<FieldRef, ParseError>)
    requires p.Ready()
    modifies p`pos
    ensures p.Agrees(r, PField(old(p.Rest())))
  {
    var t := p.Peek();
    if t == Keyword("count") {
      var _ := p.Next();
      r := ParseCount(p);
    } else if t.Ident? {
      var _ := p.Next();
      r := Ok(Field(t.name));
    } else {
      r := Err(ExpectSelectItem);
    }
  }

  function PrependAll<T>(xs: seq<T>, r: PResult<seq<T>>): PResult<seq<T>> {
    match r
    case Ok((ys, rest)) => Ok((xs + ys, rest))
    case Err(e) => Err(e)
  }

  lemma {:induction false} PrependAllTwice<T>(a: seq<T>, b: seq<T>, r: PResult<seq<T>>)
    ensures PrependAll(a, PrependAll(b, r)) == PrependAll(a + b, r)
    ensures PrependAll([], r) == r
  {
    if r.Ok? {
      assert a + (b + r.value.0) == a + b + r.value.0;
      assert [] + r.value.0 == r.value.0;
    }
  }

  method ParseFieldList(p: Parser) returns (r: Result<(seq<FieldRef>, bool), ParseError>)
    requires p.Ready()
    modifies p`pos
    ensures p.Agrees(r, PFieldList(old(p.Rest())))
  {
    if p.Peek() == Operator("*") {
      var _ := p.Next();
      return Ok(([], true));
    }
    hide PField;
    var fields: seq<FieldRef> := [];
    ghost var spec := PFields(p.Rest());
    PrependAllTwice([], [], spec);
    while true
      invariant p.Ready() && p.pos >= old(p.pos)
      invariant spec == PrependAll(fields, PFields(p.Rest()))
      decreases |p.toks| - p.pos
    {
      var f := ParseField(p);
      if f.Err? {
        return Err(f.error);
      }
      PrependAllTwice(fields, [f.value], if p.Peek() == Punct(',') then PFields(p.Rest()[1..]) else Ok(([], p.Rest())));
      fields := fields + [f.value];
      if p.Peek() != Punct(',') {
        break;
      }
      var _ := p.Next();
    }
    r := Ok((fields, false));
  }

  /** One field with its direction. */
  function POrderTerm(ts: seq<Token>): (r: PResult<OrderTerm>)
    requires Ends(ts)
    ensures r.Ok? ==> Remains(r.value.1, ts)
  {
    if !ts[0].Ident? then Err(ExpectOrderField)
    else
      var directed := ts[1] == Keyword("asc") || ts[1] == Keyword("desc");
      Ok((OrderTerm(ts[0].name, ts[1] == Keyword("desc")), if directed then ts[2..] else ts[1..]))
  }

  lemma {:induction false} OrderTermsFirst(ts: seq<Token>)
    requires Ends(ts)
    ensures POrderTerms(ts) ==
      match POrderTerm(ts)
      case Err(e) => Err(e)
      case Ok((term, rest)) =>
        PrependAll([term], if rest[0] == Punct(',') then POrderTerms(rest[1..]) else Ok(([], rest)))
  {
    hide Remains;
    if ts[0].Ident? {
      var term := OrderTerm(ts[0].name, ts[1] == Keyword("desc"));
      assert [term] + [] == [term];
    }
  }

  method ParseOrderTerm(p: Parser) returns (r: Result<OrderTerm, ParseError>)
    requires p.Ready()
    modifies p`pos
    ensures p.Agrees(r, POrderTerm(old(p.Rest())))
  {
    var t := p.Next();
    if !t.Ident? {
      return Err(ExpectOrderField);
    }
    var term := OrderTerm(t.name, false);
    if p.Peek() == Keyword("asc") || p.Peek() == Keyword("desc") {
      var d := p.Next();
      if d == Keyword("desc") {
        term := term.(desc := true);
      }
    }
    r := Ok(term);
  }

  method ParseOrderTerms(p: Parser) returns (r: Result<seq<OrderTerm>, ParseError>)
    requires p.Ready()
    modifies p`pos
    ensures p.Agrees(r, POrderTerms(old(p.Rest())))
  {
    var terms: seq<OrderTerm> := [];
    hide POrderTerms, POrderTerm;
    ghost var spec := POrderTerms(p.Rest());
    PrependAllTwice([], [], spec);
    while true
      invariant p.Ready() && p.pos >= old(p.pos)
      invariant spec == PrependAll(terms, POrderTerms(p.Rest()))
      decreases |p.toks| - p.pos
    {
      OrderTermsFirst(p.Rest());
      var term := ParseOrderTerm(p);
      if term.Err? {
        return Err(term.error);
      }
      PrependAllTwice(terms, [term.value],
                      if p.Peek() == Punct(',') then POrderTerms(p.Rest()[1..]) else Ok(([], p.Rest())));
      terms := terms + [term.value];
      if p.Peek() != Punct(',') {
        break;
      }
      var _ := p.Next();
    }
    assert terms + [] == terms;
    r := Ok(terms);
  }

  method ParseNumberClause(p: Parser, w: string) returns (r: Result<int, ParseError>)
    requires p.Ready()
    modifies p`pos
    ensures r.Err? ==> PNumberClause(old(p.Rest()), w) == Err(r.error)
    ensures r.Ok? ==> p.Ready() && PNumberClause(old(p.Rest()), w) == Ok((r.value, p.Rest()))
  {
    if p.Peek() != Keyword(w) {
      return Ok(0);
    }
    var _ := p.Next();
    var t := p.Next();
    if !t.Number? {
      return Err(ExpectCount);
    }
    var n := Atoi(t.text);
    r := if n.Err? then Err(BadCount) else Ok(n.value);
  }

  method ParseSelect(p: Parser) returns (r: Result<SelectStmt, ParseError>)
    requires p.Ready()
    modifies p`pos
    ensures r == PSelect(old(p.Rest()))
  {
    hide PFieldList, PExpr, POrderTerms, PNumberClause;
    var kw := ExpectKeywordToken(p, "select");
    if kw.Err? {
      return Err(kw.error);
    }
    var fl := ParseFieldList(p);
    if fl.Err? {
      return Err(fl.error);
    }
    kw := ExpectKeywordToken(p, "from");
    if kw.Err? {
      return Err(kw.error);
    }
    var t := p.Next();
    if !t.Ident? {
      return Err(ExpectIndexName);
    }
    r := ParseBody(p, fl.value.0, fl.value.1, t.name);
  }

  /** parseSelect from WHERE on. */
  method ParseBody(p: Parser, fields: seq<FieldRef>, all: bool, index: string)
    returns (r: Result<SelectStmt, ParseError>)
    requires p.Ready()
    modifies p`pos
    ensures r == PBody(old(p.Rest()), fields, all, index)
  {
    hide PExpr, POrderTerms, PNumberClause;
    var where: Option<Expr> := None;
    if p.Peek() == Keyword("where") {
      var _ := p.Next();
      var e := p.ParseExpr(0);
      if e.Err? {
        return Err(e.error);
      }
      where := Some(e.value);
    }
    var order: seq<OrderTerm> := [];
    if p.Peek() == Keyword("order") {
      var _ := p.Next();
      var kw := ExpectKeywordToken(p, "by");
      if kw.Err? {
        return Err(kw.error);
      }
      var terms := ParseOrderTerms(p);
      if terms.Err? {
        return Err(terms.error);
      }
      order := terms.value;
    }
    var limit := ParseNumberClause(p, "limit");
    if limit.Err? {
      return Err(limit.error);
    }
    var offset := ParseNumberClause(p, "offset");
    if offset.Err? {
      return Err(offset.error);
    }
    if p.Peek() != Eof && p.Peek() != Punct(';') {
      return Err(TrailingToken);
    }
    r := Ok(SelectStmt(fields, all, index, where, order, limit.value, offset.value));
  }

  // ------------------------------------------------------------------
  // Statement to search body and back to text
  // ------------------------------------------------------------------

  datatype Body = Body(
    query: Query,
    from: Option<int>,
    size: Option<int>,
    source: Option<seq<string>>,
    countAgg: bool,
    sort: seq<OrderTerm>)

  function FieldNames(fs: seq<FieldRef>): seq<string> {
    if fs == [] then []
    else (if fs[0].Field? then [fs[0].name] else []) + FieldNames(fs[1..])
  }

  predicate HasCount(fs: seq<FieldRef>) { exists i :: 0 <= i < |fs| && fs[i].Count? }

  /** COUNT(*) forces a size of 0 and adds an aggregation. */
  function StmtToBody(s: SelectStmt): Body {
    var counting := !s.all && HasCount(s.fields);
    var names := FieldNames(s.fields);
    Body(
      match s.where case None => MatchAll case Some(e) => ExprToQuery(e),
      if s.offset > 0 then Some(s.offset) else None,
      if counting then Some(0) else if s.limit > 0 then Some(s.limit) else None,
      if !s.all && names != [] then Some(names) else None,
      counting,
      s.orderBy)
  }

  /** The named fields, and whether one is a count. */
  method SplitFields(fields: seq<FieldRef>) returns (names: seq<string>, counting: bool)
    ensures names == FieldNames(fields) && counting == HasCount(fields)
  {
    names, counting := [], false;
    for i := 0 to |fields|
      invariant names + FieldNames(fields[i..]) == FieldNames(fields)
      invariant counting <==> exists k :: 0 <= k < i && fields[k].Count?
    {
      assert fields[i..][1..] == fields[i+1..];
      if fields[i].Count? {
        counting := true;
      } else {
        names := names + [fields[i].name];
      }
    }
    assert names + [] == names;
  }

  method CompileStmt(s: SelectStmt) returns (b: Body)
    ensures b == StmtToBody(s)
  {
    b := Body(MatchAll, None, None, None, false, s.orderBy);
    if s.where.Some? {
      b := b.(query := ExprToQuery(s.where.value));
    }
    if s.offset > 0 {
      b := b.(from := Some(s.offset));
    }
    if s.limit > 0 {
      b := b.(size := Some(s.limit));
    }
    if !s.all && |s.fields| > 0 {
      var names, counting := SplitFields(s.fields);
      if counting {
        b := b.(size := Some(0), countAgg := true);
      }
      if |names| > 0 {
        b := b.(source := Some(names));
      }
    }
  }

  function OrderText(t: OrderTerm): string {
    QuoteIdent(t.field) + (if t.desc then " DESC" else " ASC")
  }

  function OrderTexts(ts: seq<OrderTerm>): string {
    if ts == [] then ""
    else if |ts| == 1 then OrderText(ts[0])
    else OrderText(ts[0]) + ", " + OrderTexts(ts[1..])
  }

  function Clause(keyword: string, n: Option<int>): string {
    match n case None => "" case Some(v) => " " + keyword + " " + FormatInt(v)
  }

  function WhereClause(q: Query): string {
    var where := QueryToWhere(q);
    if where == "" then "" else " WHERE " + where
  }

  function OrderClause(ts: seq<OrderTerm>): string {
    if ts == [] then "" else " ORDER BY " + OrderTexts(ts)
  }

  /** OFFSET is printed before LIMIT. */
  function BodyToSQL(b: Body, index: string): string {
    "SELECT * FROM " + QuoteIdent(index) + WhereClause(b.query) + OrderClause(b.sort)
    + Clause("OFFSET", b.from) + Clause("LIMIT", b.size)
  }

  lemma {:induction false} OrderTextsSnoc(ts: seq<OrderTerm>, t: OrderTerm)
    requires ts != []
    ensures OrderTexts(ts + [t]) == OrderTexts(ts) + ", " + OrderText(t)
  {
    hide OrderText;
    if |ts| == 1 {
      assert (ts + [t])[1..] == [t];
    } else {
      OrderTextsSnoc(ts[1..], t);
      assert (ts + [t])[1..] == ts[1..] + [t];
      var a, b, c := OrderText(ts[0]) + ", ", OrderTexts(ts[1..]), ", " + OrderText(t);
      hide OrderTexts;
      assert OrderTexts(ts[1..] + [t]) == b + c;
      assert a + (b + c) == a + b + c;
    }
  }

  method PrintOrder(ts: seq<OrderTerm>) returns (r: string)
    ensures r == OrderTexts(ts)
  {
    r := "";
    for i := 0 to |ts|
      invariant r == OrderTexts(ts[..i])
    {
      assert ts[..i+1] == ts[..i] + [ts[i]];
      if i > 0 {
        OrderTextsSnoc(ts[..i], ts[i]);
        r := r + ", ";
      }
      r := r + OrderText(ts[i]);
    }
    assert ts[..|ts|] == ts;
  }

  method PrintBody(b: Body, index: string) returns (sql: string)
    ensures sql == BodyToSQL(b, index)
  {
    hide QuoteIdent, QueryToWhere, OrderTexts, FormatInt;
    sql := "SELECT * FROM " + QuoteIdent(index);
    var where := PrintQuery(b.query);
    sql := sql + if where == "" then "" else " WHERE " + where;
    var terms := PrintOrder(b.sort);
    sql := sql + if b.sort == [] then "" else " ORDER BY " + terms;
    sql := sql + Clause("OFFSET", b.from);
    sql := sql + Clause("LIMIT", b.size);
  }
}
