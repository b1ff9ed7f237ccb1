/** SQL conditions to query DSL and back to text (pkg/sqldsl/sqldsl.go), and what both mean on a document. */
module SqlDsl {
  import opened Common
  import opened Text
  import opened SqlParser

  datatype RangeOp = Gt | Gte | Lt | Lte | OtherKey

  datatype Bound = Bound(op: RangeOp, val: Literal)

  /** A query clause. Absent lists of a bool clause are empty; the bounds of a range come in the order in which
      the map holding them is iterated. */
  datatype Query =
    | MatchAll
    | Match(field: string, val: Literal)
    | Term(field: string, val: Literal)
    | Terms(field: string, vals: seq<Literal>)
    | InRange(field: string, bounds: seq<Bound>)
    | MatchPhrasePrefix(field: string, prefix: string)
    | Bool(filter: seq<Query>, must: seq<Query>, should: seq<Query>, mustNot: seq<Query>)

  // ------------------------------------------------------------------
  // Compilation
  // ------------------------------------------------------------------

  function CompareToQuery(field: string, op: string, v: Literal): Query {
    if op == "=" then Term(field, v)
    else if op == "!=" then Bool([], [], [], [Term(field, v)])
    else if op == ">" then InRange(field, [Bound(Gt, v)])
    else if op == ">=" then InRange(field, [Bound(Gte, v)])
    else if op == "<" then InRange(field, [Bound(Lt, v)])
    else if op == "<=" then InRange(field, [Bound(Lte, v)])
    else InRange(field, [])
  }

  function CondToQuery(c: Cond): Query {
    match c
    case Compare(f, op, v) => CompareToQuery(f, op, v)
    case In(f, vs) => Terms(f, vs)
    case Like(f, p) => MatchPhrasePrefix(f, p)
  }

  function ExprToQuery(e: Expr): Query {
    match e
    case Leaf(c) => CondToQuery(c)
    case Bin(AndOp, l, r) => Bool([ExprToQuery(l), ExprToQuery(r)], [], [], [])
    case Bin(OrOp, l, r) => Bool([], [], [ExprToQuery(l), ExprToQuery(r)], [])
  }

  // ------------------------------------------------------------------
  // Meaning: a document holds one value per field
  // ------------------------------------------------------------------

  type Doc = map<string, Literal>

  /** Values of the same kind are ordered; decimal numerals are left unordered. */
  predicate Below(a: Literal, b: Literal) {
    match (a, b)
    case (StrLit(s), StrLit(t)) => Less(s, t)
    case (IntLit(m), IntLit(n)) => m < n
    case _ => false
  }

  predicate SatisfiesBound(v: Literal, b: Bound) {
    match b.op
    case Gt => Below(b.val, v)
    case Gte => Below(b.val, v) || v == b.val
    case Lt => Below(v, b.val)
    case Lte => Below(v, b.val) || v == b.val
    case OtherKey => true
  }

  /** Elasticsearch's reading: filter and must are all required, should needs at least one, must_not excludes. */
  predicate Matches(q: Query, d: Doc) {
    match q
    case MatchAll => true
    case Match(f, v) => f in d && d[f] == v
    case Term(f, v) => f in d && d[f] == v
    case Terms(f, vs) => f in d && d[f] in vs
    case InRange(f, bs) => f in d && forall b :: b in bs ==> SatisfiesBound(d[f], b)
    case MatchPhrasePrefix(f, p) => f in d && d[f].StrLit? && p <= d[f].s
    case Bool(filter, must, should, mustNot) =>
      && (forall i :: 0 <= i < |filter| ==> Matches(filter[i], d))
      && (forall i :: 0 <= i < |must| ==> Matches(must[i], d))
      && (should == [] || exists i :: 0 <= i < |should| && Matches(should[i], d))
      && (forall i :: 0 <= i < |mustNot| ==> !Matches(mustNot[i], d))
  }

  /** The SQL reading of a condition. */
  predicate Holds(c: Cond, d: Doc) {
    c.field in d &&
    var x := d[c.field];
    match c
    case Compare(_, op, v) =>
      (op == "=" && x == v)
      || (op == "<" && Below(x, v)) || (op == "<=" && (Below(x, v) || x == v))
      || (op == ">" && Below(v, x)) || (op == ">=" && (Below(v, x) || x == v))
    case In(_, vs) => x in vs
    case Like(_, p) => x.StrLit? && p <= x.s
  }

  predicate Satisfies(e: Expr, d: Doc) {
    match e
    case Leaf(Compare(f, op, v)) => if op == "!=" then !Holds(Compare(f, "=", v), d) else Holds(Compare(f, op, v), d)
    case Leaf(c) => Holds(c, d)
    case Bin(AndOp, l, r) => Satisfies(l, d) && Satisfies(r, d)
    case Bin(OrOp, l, r) => Satisfies(l, d) || Satisfies(r, d)
  }

  const COMPARISONS: set<string> := {"=", "!=", "<", "<=", ">", ">="}

  /** Only the six comparison operators; the parser also lets `!`, `*` and `==` through. */
  predicate KnownOps(e: Expr) {
    match e
    case Leaf(Compare(_, op, _)) => op in COMPARISONS
    case Leaf(_) => true
    case Bin(_, l, r) => KnownOps(l) && KnownOps(r)
  }

  lemma {:induction false} CondMeaning(c: Cond, d: Doc)
    requires KnownOps(Leaf(c))
    ensures Matches(CondToQuery(c), d) == Satisfies(Leaf(c), d)
  {
    if c.Compare? {
      var q := CompareToQuery(c.field, c.op, c.val);
      if c.op == "!=" {
        assert q.mustNot[0] == Term(c.field, c.val);
      } else if c.op != "=" && c.field in d {
        assert q.bounds[0] in q.bounds;
        assert (forall b :: b in q.bounds ==> SatisfiesBound(d[c.field], b)) == SatisfiesBound(d[c.field], q.bounds[0]);
      }
    }
  }

  /** The compiled query selects exactly the documents the condition describes. */
  lemma {:induction false} CompilationPreservesMeaning(e: Expr, d: Doc)
    requires KnownOps(e)
    ensures Matches(ExprToQuery(e), d) == Satisfies(e, d)
  {
    match e
    case Leaf(c) => CondMeaning(c, d);
    case Bin(op, l, r) =>
      CompilationPreservesMeaning(l, d);
      CompilationPreservesMeaning(r, d);
      var q := ExprToQuery(e);
      if op == AndOp {
        assert q.filter[0] == ExprToQuery(l) && q.filter[1] == ExprToQuery(r);
      } else {
        assert q.should[0] == ExprToQuery(l) && q.should[1] == ExprToQuery(r);
      }
  }

  /** An operator the compiler does not know loses its value: `f == 1` selects every document that has f. */
  lemma {:induction false} UnknownOperatorSelectsAll(f: string, op: string, v: Literal, d: Doc)
    requires op !in COMPARISONS
    ensures Matches(ExprToQuery(Leaf(Compare(f, op, v))), d) == (f in d)
  {
  }

  // ------------------------------------------------------------------
  // Printing
  // ------------------------------------------------------------------

  predicate NeedsQuotes(s: string) { ' ' in s || '-' in s || '@' in s }

  function QuoteIdent(s: string): string {
    if NeedsQuotes(s) then "\"" + s + "\"" else s
  }

  /** Every quote doubled. */
  function Escape(s: string): string {
    if s == [] then [] else (if s[0] == '\'' then "''" else [s[0]]) + Escape(s[1..])
  }

  function QuoteLiteral(v: Literal): string {
    match v
    case StrLit(s) => "'" + Escape(s) + "'"
    case IntLit(n) => FormatInt(n)
    case FloatLit(text) => text
  }

  function JoinLiterals(vs: seq<Literal>): string {
    if vs == [] then ""
    else if |vs| == 1 then QuoteLiteral(vs[0])
    else QuoteLiteral(vs[0]) + ", " + JoinLiterals(vs[1..])
  }

  function RangeSymbol(op: RangeOp): string {
    match op
    case Gt => ">"
    case Gte => ">="
    case Lt => "<"
    case Lte => "<="
    case OtherKey => ""
  }

  function BoundText(field: string, b: Bound): string {
    QuoteIdent(field) + " " + RangeSymbol(b.op) + " " + QuoteLiteral(b.val)
  }

  function RangeParts(field: string, bs: seq<Bound>): seq<string> {
    if bs == [] then []
    else
      (if bs[0].op == OtherKey then [] else [BoundText(field, bs[0])]) + RangeParts(field, bs[1..])
  }

  function QueryToWhere(q: Query): string
    decreases q
  {
    match q
    case MatchAll => ""
    case Match(f, v) => QuoteIdent(f) + " = " + QuoteLiteral(v)
    case Term(f, v) => QuoteIdent(f) + " = " + QuoteLiteral(v)
    case Terms(f, vs) => QuoteIdent(f) + " IN (" + JoinLiterals(vs) + ")"
    case InRange(f, bs) => Join(RangeParts(f, bs), " AND ")
    case MatchPhrasePrefix(_, _) => ""
    case Bool(filter, must, should, mustNot) =>
      var alternatives := WhereParts(should, "(", ")");
      Join(WhereParts(filter, "", "") + WhereParts(must, "", "")
           + (if alternatives == [] then [] else [Join(alternatives, " OR ")])
           + WhereParts(mustNot, "NOT (", ")"), " AND ")
  }

  /** The non-empty texts of the clauses, each between `open` and `close`. */
  function WhereParts(qs: seq<Query>, open: string, close: string): seq<string>
    decreases qs
  {
    if qs == [] then []
    else
      var s := QueryToWhere(qs[0]);
      (if s == "" then [] else [open + s + close]) + WhereParts(qs[1..], open, close)
  }

  // ------------------------------------------------------------------
  // The printing loops
  // ------------------------------------------------------------------

  method PrintLiterals(vs: seq<Literal>) returns (parts: seq<string>)
    ensures Join(parts, ", ") == JoinLiterals(vs)
  {
    parts := [];
    for i := 0 to |vs|
      invariant |parts| == i && forall k :: 0 <= k < i ==> parts[k] == QuoteLiteral(vs[k])
    {
      parts := parts + [QuoteLiteral(vs[i])];
    }
    JoinedLiterals(vs, parts);
  }

  lemma {:induction false} JoinedLiterals(vs: seq<Literal>, parts: seq<string>)
    requires |parts| == |vs| && forall k :: 0 <= k < |vs| ==> parts[k] == QuoteLiteral(vs[k])
    ensures Join(parts, ", ") == JoinLiterals(vs)
  {
    if |vs| > 1 {
      JoinedLiterals(vs[1..], parts[1..]);
    }
  }

  method RangeToSQL(field: string, bs: seq<Bound>) returns (r: string)
    ensures r == Join(RangeParts(field, bs), " AND ")
  {
    hide BoundText;
    var parts := [];
    for i := 0 to |bs|
      invariant parts + RangeParts(field, bs[i..]) == RangeParts(field, bs)
    {
      assert bs[i..][1..] == bs[i+1..];
      if bs[i].op != OtherKey {
        parts := parts + [BoundText(field, bs[i])];
      }
    }
    assert parts + [] == parts;
    r := Join(parts, " AND ");
  }

  method PrintQuery(q: Query) returns (r: string)
    ensures r == QueryToWhere(q)
    decreases q, 0
  {
    match q
    case MatchAll => r := "";
    case Match(f, v) => r := QuoteIdent(f) + " = " + QuoteLiteral(v);
    case Term(f, v) => r := QuoteIdent(f) + " = " + QuoteLiteral(v);
    case Terms(f, vs) =>
      var parts := PrintLiterals(vs);
      r := QuoteIdent(f) + " IN (" + Join(parts, ", ") + ")";
    case InRange(f, bs) => r := RangeToSQL(f, bs);
    case MatchPhrasePrefix(_, _) => r := "";
    case Bool(filter, must, should, mustNot) =>
      var parts := PrintClauses(filter, "", "");
      var musts := PrintClauses(must, "", "");
      parts := parts + musts;
      var shoulds := PrintClauses(should, "(", ")");
      if |shoulds| > 0 {
        parts := parts + [Join(shoulds, " OR ")];
      }
      var nots := PrintClauses(mustNot, "NOT (", ")");
      r := Join(parts + nots, " AND ");
      assert musts + [] == musts && WhereParts(filter, "", "") + musts + [] == WhereParts(filter, "", "") + musts;
  }

  /** One of the four loops of boolToSQL. */
  method PrintClauses(qs: seq<Query>, open: string, close: string) returns (parts: seq<string>)
    ensures parts == WhereParts(qs, open, close)
    decreases qs, 1
  {
    hide QueryToWhere;
    parts := [];
    for i := 0 to |qs|
      invariant parts + WhereParts(qs[i..], open, close) == WhereParts(qs, open, close)
    {
      assert qs[i..][1..] == qs[i+1..];
      var s := PrintQuery(qs[i]);
      if s != "" {
        parts := parts + [open + s + close];
      }
    }
  }
}
