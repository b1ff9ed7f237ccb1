/** Tokens as they may be spelled in a statement (pkg/sqldsl/sqldsl.go). */
module SqlSpelling {
  import opened Common
  import opened Text
  import opened SqlLexer
  import opened SqlParser
  import opened SqlDsl
  import opened SqlLexText
  import opened SqlSelect
  import opened SqlStatement
  import opened SqlWritten

  predicate BareWord(w: string) { w != "" && IsIdentStart(w[0]) && forall i :: 0 <= i < |w| ==> IsIdentPart(w[i]) }

  const OPERATORS: set<string> := {"=", "<", ">", "!", "<=", ">=", "==", "!=", "*"}

  /** Names bare or in double quotes, keywords in any case, strings with their quotes doubled. */
  predicate Spells(w: string, t: Token) {
    match t
    case Eof => false
    case Ident(name) =>
      (w == name && BareWord(name) && Lower(name) !in KEYWORDS) || (w == "\"" + name + "\"" && '"' !in name)
    case Number(text) =>
      w == text && text != "" && IsDigit(text[0]) && forall i :: 0 <= i < |text| ==> IsNumberPart(text[i])
    case Str(v) => w == "'" + Escape(v) + "'"
    case Keyword(k) => BareWord(w) && Lower(w) == k && k in KEYWORDS
    case Operator(op) => w == op && op in OPERATORS
    case Punct(c) => w == [c] && IsPunctChar(c)
  }

  predicate IsBlank(g: string) { forall i :: 0 <= i < |g| ==> IsSpace(g[i]) }

  /** The words, each behind its gap, and the last gap at the end. */
  function Spelled(ws: seq<string>, gaps: seq<string>): string
    requires |gaps| == |ws| + 1
  {
    if ws == [] then gaps[0] else gaps[0] + ws[0] + Spelled(ws[1..], gaps[1..])
  }

  /** Words that spell the tokens, with white space between any two and at will at both ends. */
  predicate Spelling(ws: seq<string>, gaps: seq<string>, ts: seq<Token>) {
    && |ws| == |ts| && |gaps| == |ws| + 1
    && (forall i :: 0 <= i < |ws| ==> Spells(ws[i], ts[i]))
    && (forall i :: 0 <= i < |gaps| ==> IsBlank(gaps[i]))
    && forall i :: 0 < i < |ws| ==> gaps[i] != ""
  }

  lemma {:induction false} LexesBlank(g: string, r: string, ts: seq<Token>)
    requires IsBlank(g) && Lexes(r, ts)
    ensures Lexes(g + r, ts)
  {
    if g == "" {
      assert g + r == r;
    } else {
      LexesBlank(g[1..], r, ts);
      assert (g + r)[1..] == g[1..] + r;
      OffsetIrrelevant(g[1..] + r, 0, 1);
    }
  }

  lemma {:induction false} LexesQuoted(name: string, r: string, ts: seq<Token>)
    requires '"' !in name && Lexes(r, ts)
    ensures Lexes("\"" + name + "\"" + r, [Ident(name)] + ts)
  {
    QuotedFront(name, r);
    LexesEmit("\"" + name + "\"", r, Ident(name), ts);
  }

  lemma {:induction false} LexesDigits(text: string, r: string, ts: seq<Token>)
    requires text != "" && IsDigit(text[0]) && (forall i :: 0 <= i < |text| ==> IsNumberPart(text[i]))
    requires Lexes(r, ts) && AtBoundary(r)
    ensures Lexes(text + r, [Number(text)] + ts)
  {
    RunIs((text + r)[1..], IsNumberPart, |text| - 1);
    assert (text + r)[..|text|] == text;
    LexesEmit(text, r, Number(text), ts);
  }

  lemma {:induction false} LexesSign(op: string, r: string, ts: seq<Token>)
    requires op in OPERATORS && Lexes(r, ts) && AtBoundary(r)
    ensures Lexes(op + r, [Operator(op)] + ts)
  {
    SignFront(op, r);
    hide Front, Lexes, OPERATORS;
    LexesEmit(op, r, Operator(op), ts);
  }

  lemma {:induction false} SignFront(op: string, r: string)
    requires op in OPERATORS && AtBoundary(r)
    ensures op != "" && Front(op + r) == Emit(Operator(op), |op|)
  {
    if |op| == 2 {
      assert (op + r)[..2] == op;
    } else {
      assert [op[0]] == op;
    }
  }

  lemma {:induction false} LexesSpelled(w: string, t: Token, r: string, ts: seq<Token>)
    requires Spells(w, t) && Lexes(r, ts) && AtBoundary(r)
    ensures Lexes(w + r, [t] + ts)
  {
    hide Lexes;
    match t
    case Ident(name) =>
      if w == name && BareWord(name) && Lower(name) !in KEYWORDS {
        LexesWord(w, r, ts);
      } else {
        LexesQuoted(name, r, ts);
      }
    case Number(text) => LexesDigits(text, r, ts);
    case Str(v) => LexesString(v, r, ts);
    case Keyword(k) => LexesWord(w, r, ts);
    case Operator(op) => LexesSign(op, r, ts);
    case Punct(c) => LexesPunct(c, r, ts);
  }

  /** However its tokens are spelled and spaced, a text lexes to them. */
  lemma {:induction false} SpellingLexes(ws: seq<string>, gaps: seq<string>, ts: seq<Token>)
    requires Spelling(ws, gaps, ts)
    ensures Lexes(Spelled(ws, gaps), ts + [Eof])
  {
    assert |gaps| == |ws| + 1 && |ts| == |ws|;
    hide Lexes, Spells, Spelled, Spelling, IsBlank, AtBoundary;
    if ws == [] {
      LexesEmpty();
      NoWords(gaps, ts);
      LexesBlank(gaps[0], "", [Eof]);
    } else {
      var rest := Spelled(ws[1..], gaps[1..]);
      FirstWord(ws, gaps, ts);
      SpellingLexes(ws[1..], gaps[1..], ts[1..]);
      RestAtBoundary(ws, gaps, ts);
      LexesSpelled(ws[0], ts[0], rest, ts[1..] + [Eof]);
      LexesBlank(gaps[0], ws[0] + rest, [ts[0]] + (ts[1..] + [Eof]));
    }
  }

  lemma {:induction false} NoWords(gaps: seq<string>, ts: seq<Token>)
    requires Spelling([], gaps, ts)
    ensures IsBlank(gaps[0]) && Spelled([], gaps) == gaps[0] + "" && ts + [Eof] == [Eof]
  {
  }

  lemma {:induction false} FirstWord(ws: seq<string>, gaps: seq<string>, ts: seq<Token>)
    requires Spelling(ws, gaps, ts) && ws != []
    ensures Spelling(ws[1..], gaps[1..], ts[1..]) && IsBlank(gaps[0]) && Spells(ws[0], ts[0])
    ensures Spelled(ws, gaps) == gaps[0] + (ws[0] + Spelled(ws[1..], gaps[1..]))
    ensures ts + [Eof] == [ts[0]] + (ts[1..] + [Eof])
  {
    hide Spells, IsBlank;
  }

  lemma {:induction false} RestAtBoundary(ws: seq<string>, gaps: seq<string>, ts: seq<Token>)
    requires Spelling(ws, gaps, ts) && ws != []
    ensures AtBoundary(Spelled(ws[1..], gaps[1..]))
  {
    hide Spells;
    var rest := Spelled(ws[1..], gaps[1..]);
    assert IsBlank(gaps[1]);
    if |ws| == 1 {
      assert rest == gaps[1];
    } else {
      assert gaps[1] != "" && rest[0] == gaps[1][0];
    }
  }

  /** Every statement that can be written is read as it is meant, however its tokens are spelled and spaced. */
  lemma {:induction false} WrittenStatementReads(d: Draft, ws: seq<string>, gaps: seq<string>)
    requires Valid(d) && d.rest == [Eof] && Spelling(ws, gaps, DraftTokens(d)[..|DraftTokens(d)|-1])
    ensures ReadSelect(Spelled(ws, gaps)) == Ok(Meant(d))
  {
    var ts := DraftTokens(d);
    DraftReads(d);
    hide Spelling, DraftTokens, Valid, PSelect, Meant;
    SpellingLexes(ws, gaps, ts[..|ts|-1]);
    assert ts == ts[..|ts|-1] + [Eof];
  }

  // ------------------------------------------------------------------
  // Nothing else is a token
  // ------------------------------------------------------------------

  lemma {:induction false} ScannedIsEscaped(s: string)
    requires ScanString(s).Some?
    ensures var (v, n) := ScanString(s).value; s[..n] == Escape(v) + "'"
  {
    var (v, n) := ScanString(s).value;
    if s[0] != '\'' {
      ScannedIsEscaped(s[1..]);
      var (u, k) := ScanString(s[1..]).value;
      assert v == [s[0]] + u && v[1..] == u && n == 1 + k;
      assert s[..n] == [s[0]] + s[1..][..k];
      assert Escape(v) + "'" == [s[0]] + (Escape(u) + "'");
    } else if |s| > 1 && s[1] == '\'' {
      ScannedIsEscaped(s[2..]);
      var (u, k) := ScanString(s[2..]).value;
      assert v == "'" + u && v[1..] == u && n == 2 + k;
      assert s[..n] == "''" + s[2..][..k];
      assert Escape(v) + "'" == "''" + (Escape(u) + "'");
    } else {
      assert v == "" && n == 1 && s[..1] == "'";
    }
  }

  lemma {:induction false} FrontIsSpelled(s: string)
    requires s != [] && Front(s).Emit?
    ensures Spells(s[..Front(s).n], Front(s).token)
  {
    var n := Front(s).n;
    if s[0] == '\'' {
      ScannedIsEscaped(s[1..]);
      assert s[..n] == "'" + s[1..][..n-1];
    } else if s[0] == '"' {
      QuotedIsSpelled(s);
    } else if IsDigit(s[0]) {
      assert forall i :: 1 <= i < n ==> s[i] == s[1..][i-1];
    } else if IsIdentStart(s[0]) {
      assert forall i :: 1 <= i < n ==> s[i] == s[1..][i-1];
      assert BareWord(s[..n]);
    } else {
      SignIsSpelled(s);
    }
  }

  lemma {:induction false} SignIsOperator(c: char)
    requires IsOperatorChar(c)
    ensures [c] in OPERATORS && [c, '='] in OPERATORS
  {
    if c == '=' {
      assert [c] == "=" && [c, '='] == "==";
    } else if c == '<' {
      assert [c] == "<" && [c, '='] == "<=";
    } else if c == '>' {
      assert [c] == ">" && [c, '='] == ">=";
    } else {
      assert [c] == "!" && [c, '='] == "!=";
    }
  }

  lemma {:induction false} SignIsSpelled(s: string)
    requires s != [] && Front(s).Emit? && !IsDigit(s[0]) && !IsIdentStart(s[0]) && s[0] != '\'' && s[0] != '"'
    ensures Spells(s[..Front(s).n], Front(s).token)
  {
    assert s[..1] == [s[0]];
    if IsOperatorChar(s[0]) {
      SignIsOperator(s[0]);
      assert |s| > 1 && s[1] == '=' ==> s[..2] == [s[0], '='];
    } else if s[0] == '*' {
      assert [s[0]] == "*";
    }
  }

  lemma {:induction false} QuotedIsSpelled(s: string)
    requires s != [] && s[0] == '"' && Front(s).Emit?
    ensures Spells(s[..Front(s).n], Front(s).token)
  {
    var k := Run(s[1..], NotQuote);
    var name := s[1..1+k];
    assert forall i :: 0 <= i < k ==> name[i] == s[1..][i];
    assert s[1..][k] == s[k + 1] && s[k + 1] == '"';
    assert s[..k + 2] == "\"" + name + "\"";
  }

  /** Words that spell the tokens with white space around them at will. */
  predicate Loose(ws: seq<string>, gaps: seq<string>, ts: seq<Token>) {
    && |ws| == |ts| && |gaps| == |ws| + 1
    && (forall i :: 0 <= i < |ws| ==> Spells(ws[i], ts[i]))
    && forall i :: 0 <= i < |gaps| ==> IsBlank(gaps[i])
  }

  /** A text that lexes is made of spelled tokens and white space. */
  lemma {:induction false} OnlySpellingsLex(s: string, off: nat) returns (ws: seq<string>, gaps: seq<string>)
    requires Lex(s, off).Ok?
    ensures var ts := Lex(s, off).value; Loose(ws, gaps, ts[..|ts|-1]) && s == Spelled(ws, gaps)
    decreases |s|
  {
    hide Spells, Front;
    if s == [] {
      ws, gaps := [], [""];
    } else {
      var front := Front(s);
      var n := front.n;
      ws, gaps := OnlySpellingsLex(s[n..], off + n);
      var ts := Lex(s[n..], off + n).value;
      assert s == s[..n] + s[n..];
      if front.Skip? {
        SkipsBlank(s);
        LongerGap(ws, gaps, s[..n]);
        gaps := [s[..n] + gaps[0]] + gaps[1..];
      } else {
        FrontIsSpelled(s);
        ws, gaps := [s[..n]] + ws, [""] + gaps;
        assert Lex(s, off).value == [front.token] + ts;
        assert ([front.token] + ts)[..|ts|] == [front.token] + ts[..|ts|-1];
        assert "" + s[..n] == s[..n];
      }
    }
  }

  lemma {:induction false} SkipsBlank(s: string)
    requires s != [] && Front(s).Skip?
    ensures Front(s).n == 1 && IsBlank(s[..1])
  {
  }

  lemma {:induction false} LongerGap(ws: seq<string>, gaps: seq<string>, g: string)
    requires |gaps| == |ws| + 1
    ensures Spelled(ws, [g + gaps[0]] + gaps[1..]) == g + Spelled(ws, gaps)
  {
    var longer := [g + gaps[0]] + gaps[1..];
    if ws != [] {
      assert longer[1..] == gaps[1..];
      assert longer[0] + ws[0] + Spelled(ws[1..], gaps[1..]) == g + (gaps[0] + ws[0] + Spelled(ws[1..], gaps[1..]));
    }
  }
}
