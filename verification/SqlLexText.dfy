/** How printed fragments of SQL lex (pkg/sqldsl/sqldsl.go). */
module SqlLexText {
  import opened Common
  import opened Text
  import opened SqlLexer
  import opened SqlParser
  import opened SqlRender
  import opened SqlDsl

  /** The text lexes, and gives these tokens. */
  ghost predicate Lexes(s: string, ts: seq<Token>) { Lex(s, 0) == Ok(ts) }

  /** Success does not depend on the offset. */
  lemma {:induction false} OffsetIrrelevant(s: string, o: nat, o': nat)
    requires Lex(s, o).Ok?
    ensures Lex(s, o') == Lex(s, o)
    decreases |s|
  {
    hide Front;
    if s != [] {
      var st := Front(s);
      if st.Skip? || st.Emit? {
        OffsetIrrelevant(s[st.n..], o + st.n, o' + st.n);
      }
    }
  }

  lemma {:induction false} LexesEmpty()
    ensures Lexes("", [Eof])
  {
  }

  lemma {:induction false} LexesEmit(w: string, r: string, t: Token, ts: seq<Token>)
    requires w != [] && Front(w + r) == Emit(t, |w|) && Lexes(r, ts)
    ensures Lexes(w + r, [t] + ts)
  {
    hide Front;
    assert (w + r)[|w|..] == r;
    OffsetIrrelevant(r, 0, |w|);
  }

  lemma {:induction false} LexesSpace(r: string, ts: seq<Token>)
    requires Lexes(r, ts)
    ensures Lexes(" " + r, ts)
  {
    assert (" " + r)[1..] == r;
    OffsetIrrelevant(r, 0, 1);
  }

  lemma {:induction false} LexesPunct(c: char, r: string, ts: seq<Token>)
    requires IsPunctChar(c) && Lexes(r, ts)
    ensures Lexes([c] + r, [Punct(c)] + ts)
  {
    LexesEmit([c], r, Punct(c), ts);
  }

  /** What may follow an item: the end, white space, a closing parenthesis or a comma. */
  predicate AtBoundary(r: string) {
    r == "" || IsSpace(r[0]) || r[0] == ')' || r[0] == ','
  }

  predicate PlainOp(op: string) { op in {"=", "<", "<=", ">", ">="} }

  lemma {:induction false} LexesOperator(op: string, r: string, ts: seq<Token>)
    requires PlainOp(op) && Lexes(r, ts) && AtBoundary(r)
    ensures Lexes(op + r, [Operator(op)] + ts)
  {
    if |op| == 2 {
      assert (op + r)[..2] == op;
    } else {
      assert [op[0]] == op;
    }
    LexesEmit(op, r, Operator(op), ts);
  }

  /** A run of identifier characters becomes a keyword or an identifier. */
  lemma {:induction false} LexesWord(w: string, r: string, ts: seq<Token>)
    requires w != [] && IsIdentStart(w[0]) && (forall i :: 0 <= i < |w| ==> IsIdentPart(w[i]))
    requires Lexes(r, ts) && AtBoundary(r)
    ensures Lexes(w + r, [Word(w)] + ts)
  {
    WordFront(w, r);
    LexesEmit(w, r, Word(w), ts);
  }

  /** Keywords as the printer spells them and as the lexer reports them. */
  const KEYWORD_SPELLINGS: set<(string, string)> :=
    {("AND", "and"), ("OR", "or"), ("IN", "in"), ("SELECT", "select"), ("FROM", "from"), ("WHERE", "where"),
     ("ORDER", "order"), ("BY", "by"), ("ASC", "asc"), ("DESC", "desc"), ("LIMIT", "limit"), ("OFFSET", "offset")}

  lemma {:induction false} LexesKeyword(w: string, k: string, r: string, ts: seq<Token>)
    requires (w, k) in KEYWORD_SPELLINGS
    requires Lexes(r, ts) && AtBoundary(r)
    ensures Lexes(w + r, [Keyword(k)] + ts)
  {
    assert Lower(w) == k && k in KEYWORDS;
    LexesWord(w, r, ts);
  }

  // ------------------------------------------------------------------
  // Field names
  // ------------------------------------------------------------------

  /** Names that survive printing: quoted ones must not hold a quote, and the others must look like an identifier. */
  predicate Relexable(f: string) {
    if NeedsQuotes(f) then '"' !in f
    else f != "" && IsIdentStart(f[0]) && (forall i :: 0 <= i < |f| ==> IsIdentPart(f[i])) && Lower(f) !in KEYWORDS
  }

  lemma {:induction false} QuotedFront(f: string, r: string)
    requires '"' !in f
    ensures Front("\"" + f + "\"" + r) == Emit(Ident(f), |f| + 2)
  {
    var s := "\"" + f + "\"" + r;
    assert s[1..] == f + ("\"" + r);
    RunIs(s[1..], NotQuote, |f|);
    assert s[1..1+|f|] == f;
  }

  lemma {:induction false} WordFront(w: string, r: string)
    requires w != "" && IsIdentStart(w[0]) && (forall i :: 0 <= i < |w| ==> IsIdentPart(w[i])) && AtBoundary(r)
    ensures Front(w + r) == Emit(Word(w), |w|)
  {
    RunIs((w + r)[1..], IsIdentPart, |w| - 1);
    assert (w + r)[..|w|] == w;
  }

  lemma {:induction false} IdentFront(f: string, r: string)
    requires Relexable(f) && AtBoundary(r)
    ensures Front(QuoteIdent(f) + r) == Emit(Ident(f), |QuoteIdent(f)|)
  {
    hide Front;
    if NeedsQuotes(f) {
      QuotedFront(f, r);
    } else {
      WordFront(f, r);
    }
  }

  lemma {:induction false} LexesIdent(f: string, r: string, ts: seq<Token>)
    requires Relexable(f) && Lexes(r, ts) && AtBoundary(r)
    ensures Lexes(QuoteIdent(f) + r, [Ident(f)] + ts)
  {
    IdentFront(f, r);
    LexesEmit(QuoteIdent(f), r, Ident(f), ts);
  }

  lemma {:induction false} QuotedNameBreaks(f: string, r: string)
    requires NeedsQuotes(f) && '"' in f
    ensures !Front(QuoteIdent(f) + r).Emit? || Front(QuoteIdent(f) + r).token != Ident(f)
  {
    var s := QuoteIdent(f) + r;
    var k :| 0 <= k < |f| && f[k] == '"';
    assert s[1..][k] == '"';
    assert Run(s[1..], NotQuote) <= k;
  }

  lemma {:induction false} BareNameBreaks(f: string, r: string)
    requires !NeedsQuotes(f) && !Relexable(f) && r != "" && r[0] == ' '
    ensures !Front(f + r).Emit? || Front(f + r).token != Ident(f)
  {
    var s := f + r;
    if f == "" {
      assert s == r;
    } else if IsIdentStart(f[0]) {
      if k :| 0 <= k < |f| && !IsIdentPart(f[k]) {
        assert s[1..][k-1] == f[k];
        assert 1 + Run(s[1..], IsIdentPart) <= k;
      } else {
        WordFront(f, r);
      }
    } else if f[0] == '"' {
      var n := Run(s[1..], NotQuote);
      assert n < |s| - 1 ==> '"' !in s[1..1+n];
    }
  }

  /** The condition is exact: a printed name lexes back to itself only if it is relexable. */
  lemma {:induction false} NamePrintsExactly(f: string, r: string)
    requires r != "" && r[0] == ' '
    ensures Relexable(f) <==> Front(QuoteIdent(f) + r) == Emit(Ident(f), |QuoteIdent(f)|)
  {
    hide Front;
    if Relexable(f) {
      IdentFront(f, r);
    } else if NeedsQuotes(f) {
      QuotedNameBreaks(f, r);
    } else {
      BareNameBreaks(f, r);
    }
  }

  // ------------------------------------------------------------------
  // Literals
  // ------------------------------------------------------------------

  lemma {:induction false} ScanEscaped(v: string, r: string)
    requires r == "" || r[0] != '\''
    ensures ScanString(Escape(v) + "'" + r) == Some((v, |Escape(v)| + 1))
  {
    var s := Escape(v) + "'" + r;
    if v == "" {
      assert s == "'" + r;
    } else {
      ScanEscaped(v[1..], r);
      var tail := Escape(v[1..]) + "'" + r;
      assert v == [v[0]] + v[1..];
      if v[0] == '\'' {
        assert s == "''" + tail by {
          assert Escape(v) == "''" + Escape(v[1..]);
          Reassociate("''", Escape(v[1..]), "'", r);
        }
        assert s[2..] == tail;
      } else {
        assert s == [v[0]] + tail by {
          assert Escape(v) == [v[0]] + Escape(v[1..]);
          Reassociate([v[0]], Escape(v[1..]), "'", r);
        }
        assert s[1..] == tail;
      }
    }
  }

  /** Undoing the escaping: a printed string lexes to exactly the string it was printed from. */
  lemma {:induction false} LexesString(v: string, r: string, ts: seq<Token>)
    requires Lexes(r, ts) && (r == "" || r[0] != '\'')
    ensures Lexes(QuoteLiteral(StrLit(v)) + r, [Str(v)] + ts)
  {
    var w := QuoteLiteral(StrLit(v));
    assert (w + r)[1..] == Escape(v) + "'" + r;
    ScanEscaped(v, r);
    LexesEmit(w, r, Str(v), ts);
  }

  lemma {:induction false} LexesNumber(n: nat, r: string, ts: seq<Token>)
    requires Lexes(r, ts) && AtBoundary(r)
    ensures Lexes(Digits(n) + r, [Number(Digits(n))] + ts)
  {
    var w := Digits(n);
    RunIs((w + r)[1..], IsNumberPart, |w| - 1);
    assert (w + r)[..|w|] == w;
    LexesEmit(w, r, Number(w), ts);
  }

  /** Literals with an exact text: strings, and integers that are not negative and fit 64 bits. */
  predicate ExactLiteral(v: Literal) { !v.FloatLit? && GoodLiteral(v) }

  lemma {:induction false} LexesLiteral(v: Literal, r: string, ts: seq<Token>)
    requires ExactLiteral(v) && Lexes(r, ts) && AtBoundary(r)
    ensures Lexes(QuoteLiteral(v) + r, [LiteralToken(v)] + ts)
  {
    match v
    case StrLit(s) => LexesString(s, r, ts);
    case IntLit(n) => LexesNumber(n, r, ts);
  }

  /** The condition on integers is exact: a printed integer reads back only when it is in range. */
  lemma {:induction false} IntegerPrintsExactly(n: int)
    ensures var lexed := Lex(FormatInt(n), 0);
            (lexed.Ok? && LiteralOf(lexed.value[0]) == Ok(IntLit(n))) <==> 0 <= n <= MAX_INT64
  {
    if n >= 0 {
      LexesEmpty();
      LexesNumber(n, "", [Eof]);
      assert Digits(n) + "" == Digits(n);
      NatOfDigits(n);
      assert '.' !in Digits(n);
    } else {
      assert FormatInt(n)[0] == '-';
    }
  }

  lemma {:induction false} LexesLiterals(vs: seq<Literal>, r: string, ts: seq<Token>)
    requires vs != [] && (forall v :: v in vs ==> ExactLiteral(v)) && Lexes(r, ts) && AtBoundary(r)
    ensures Lexes(JoinLiterals(vs) + r, LiteralTokens(vs) + ts)
  {
    hide QuoteLiteral, LiteralToken, ExactLiteral, Lexes, AtBoundary;
    var w := QuoteLiteral(vs[0]);
    if |vs| == 1 {
      LexesLiteral(vs[0], r, ts);
      assert LiteralTokens(vs) == [LiteralToken(vs[0])];
    } else {
      var more, us := JoinLiterals(vs[1..]) + r, LiteralTokens(vs[1..]) + ts;
      LexesLiterals(vs[1..], r, ts);
      LexesSpace(more, us);
      LexesPunct(',', " " + more, us);
      LexesLiteral(vs[0], [','] + (" " + more), [Punct(',')] + us);
      assert JoinLiterals(vs) == w + ", " + JoinLiterals(vs[1..]);
      CommaText(w, JoinLiterals(vs[1..]), r);
      var head, tail := [LiteralToken(vs[0])], LiteralTokens(vs[1..]);
      assert LiteralTokens(vs) == [LiteralToken(vs[0]), Punct(',')] + tail;
      assert [LiteralToken(vs[0]), Punct(',')] + tail == head + [Punct(',')] + tail;
      CommaTokens(head, tail, ts);
    }
  }

  lemma {:induction false} CommaText(w: string, more: string, r: string)
    ensures w + ", " + more + r == w + ([','] + (" " + (more + r)))
  {
    assert ", " == [','] + " ";
  }

  lemma {:induction false} CommaTokens(head: seq<Token>, more: seq<Token>, ts: seq<Token>)
    ensures head + [Punct(',')] + more + ts == head + ([Punct(',')] + (more + ts))
  {
  }
}
