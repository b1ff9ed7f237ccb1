/** What a query_string text written from terms finds. */
module QueryStringMeaning {
  import opened Common
  import opened Text
  import opened Tokenizer
  import opened InvertedIndex
  import opened IndexRuns
  import opened QueryString

  datatype Term = Word(text: string) | Fielded(field: string, text: string) | Phrase(text: string)

  datatype Sign = NoSign | Plus | Minus

  datatype Signed = Signed(sign: Sign, term: Term)

  /** Alternatives, each with its sign; a term of its own is a group of one. */
  type Group = seq<Signed>

  predicate BlankFree(s: string) { forall i :: 0 <= i < |s| ==> !IsBlank(s[i]) }

  predicate StartsPlain(s: string) { s != "" && !IsBlank(s[0]) && !IsSign(s[0]) }

  /** The terms the language can write down. */
  predicate Plain(t: Term) {
    match t
    case Word(w) =>
      StartsPlain(w) && w[0] != '"' && BlankFree(w) && w != "OR"
      && (w[0] == ':' || forall i :: 0 <= i < |w| ==> w[i] != ':')
    case Fielded(f, x) =>
      StartsPlain(f) && f[0] != '"' && BlankFree(f) && BlankFree(x) && forall i :: 0 <= i < |f| ==> f[i] != ':'
    case Phrase(p) => forall i :: 0 <= i < |p| ==> p[i] != '"'
  }

  predicate PlainGroup(g: Group) { g != [] && forall x :: x in g ==> Plain(x.term) }

  predicate PlainQuery(gs: seq<Group>) { forall g :: g in gs ==> PlainGroup(g) }

  // ------------------------------------------------------------------
  // Writing
  // ------------------------------------------------------------------

  function TermText(t: Term): string {
    match t
    case Word(w) => w
    case Fielded(f, x) => f + ":" + x
    case Phrase(p) => "\"" + p + "\""
  }

  function SignText(s: Sign): string {
    match s
    case NoSign => ""
    case Plus => "+"
    case Minus => "-"
  }

  function SignedText(x: Signed): string { SignText(x.sign) + TermText(x.term) }

  function GroupText(g: Group): string {
    if g == [] then "" else if |g| == 1 then SignedText(g[0]) else SignedText(g[0]) + (" OR " + GroupText(g[1..]))
  }

  function QueryText(gs: seq<Group>): string {
    if gs == [] then "" else if |gs| == 1 then GroupText(gs[0]) else GroupText(gs[0]) + (" " + QueryText(gs[1..]))
  }

  // ------------------------------------------------------------------
  // The clauses it becomes
  // ------------------------------------------------------------------

  function ClauseOf(t: Term, df: string, must: bool): Clause {
    match t
    case Word(w) => Clause(df, must, false, w)
    case Fielded(f, x) => Clause(f, must, false, x)
    case Phrase(p) => Clause(df, must, true, p)
  }

  function SignedClause(x: Signed, df: string): Clause { ClauseOf(x.term, df, x.sign != Minus) }

  function GroupClauses(g: Group, df: string): seq<Clause> {
    if g == [] then [] else if |g| == 1 then [SignedClause(g[0], df)]
    else [SignedClause(g[0], df), OR] + GroupClauses(g[1..], df)
  }

  function QueryClauses(gs: seq<Group>, df: string): seq<Clause> {
    if gs == [] then [] else GroupClauses(gs[0], df) + QueryClauses(gs[1..], df)
  }

  // ------------------------------------------------------------------
  // Parsing one term
  // ------------------------------------------------------------------

  /** What may follow a term. */
  predicate Ends(rest: string) { rest == "" || rest[0] == ' ' }

  lemma {:induction false} BlankSkipped(s: string, df: string)
    requires s != "" && !IsBlank(s[0])
    ensures Parse(" " + s, df) == Parse(s, df)
  {
    assert (" " + s)[1..] == s;
    assert Drop(" " + s, IsBlank) == s == Drop(s, IsBlank);
  }

  lemma {:induction false} SignSkipped(sign: Sign, s: string, df: string)
    requires StartsPlain(s)
    ensures Parse(SignText(sign) + s, df) == ParseClause(s, df, sign != Minus)
  {
    hide ParseClause;
    var t := SignText(sign) + s;
    assert Drop(s, IsBlank) == s;
    assert Drop(t, IsBlank) == t;
    if sign == NoSign {
      assert t == s;
    } else {
      assert t[1..] == s;
    }
  }

  /** A token is not taken for the keyword. */
  lemma {:induction false} TokenIsNotKeyword(tok: string, rest: string)
    requires tok != "" && BlankFree(tok) && tok != "OR" && Ends(rest)
    ensures var s := tok + rest; !AtOr(s) && !(|s| >= 2 && s[0] == 'O' && s[1] == 'R' && (|s| == 2 || SpaceOrTab(s[2])))
  {
    var s := tok + rest;
    assert forall i :: 0 <= i < |tok| ==> s[i] == tok[i];
    assert |tok| == 1 && |s| >= 2 ==> s[1] == ' ';
    assert |tok| == 2 ==> tok == [tok[0], tok[1]];
  }

  lemma {:induction false} TokenParses(tok: string, rest: string, df: string, must: bool)
    requires StartsPlain(tok) && tok[0] != '"' && BlankFree(tok) && tok != "OR" && Ends(rest)
    ensures ParseClause(tok + rest, df, must) == Prepend([TokenClause(tok, df, must)] + Mark(rest), Parse(rest, df))
  {
    var s := tok + rest;
    TokenIsNotKeyword(tok, rest);
    RunIs(s, NotBlank, |tok|);
    assert s[|tok|..] == rest && s[..|tok|] == tok;
    hide Text.Run, Parse, AtOr, Mark, TokenClause;
  }

  lemma {:induction false} PhraseParses(p: string, rest: string, df: string, must: bool)
    requires forall i :: 0 <= i < |p| ==> p[i] != '"'
    ensures ParseClause("\"" + p + "\"" + rest, df, must)
         == Prepend([Clause(df, must, true, p)] + Mark(rest), Parse(rest, df))
  {
    var s := "\"" + p + "\"" + rest;
    assert s[1..] == p + "\"" + rest;
    RunIs(s[1..], NotQuote, |p|);
    assert s[|p|+2..] == rest && s[1..|p|+1] == p;
    hide Text.Run, Parse, Mark, PeekOr;
  }

  lemma {:induction false} FieldedToken(f: string, x: string, df: string, must: bool)
    requires Plain(Fielded(f, x))
    ensures TokenClause(f + ":" + x, df, must) == Clause(f, must, false, x)
    ensures BlankFree(f + ":" + x) && f + ":" + x != "OR"
  {
    var tok := f + ":" + x;
    RunIs(tok, NotColon, |f|);
    assert tok[..|f|] == f && tok[|f|+1..] == x;
    assert tok[|f|] == ':';
    assert "OR"[0] != ':' && "OR"[1] != ':';
  }

  lemma {:induction false} WordToken(w: string, df: string, must: bool)
    requires Plain(Word(w))
    ensures TokenClause(w, df, must) == Clause(df, must, false, w)
  {
    if w[0] != ':' {
      RunIs(w, NotColon, |w|);
    }
  }

  lemma {:induction false} TermClauseParses(t: Term, rest: string, df: string, must: bool)
    requires Plain(t) && Ends(rest)
    ensures ParseClause(TermText(t) + rest, df, must) == Prepend([ClauseOf(t, df, must)] + Mark(rest), Parse(rest, df))
    ensures StartsPlain(TermText(t) + rest)
  {
    hide ParseClause, Parse, Mark, TokenClause;
    match t
    case Word(w) =>
      WordToken(w, df, must);
      TokenParses(w, rest, df, must);
    case Fielded(f, x) =>
      FieldedToken(f, x, df, must);
      assert (f + ":" + x)[0] == f[0];
      TokenParses(f + ":" + x, rest, df, must);
    case Phrase(p) =>
      PhraseParses(p, rest, df, must);
  }

  lemma {:induction false} SignedParses(x: Signed, rest: string, df: string)
    requires Plain(x.term) && Ends(rest)
    ensures Parse(SignedText(x) + rest, df) == Prepend([SignedClause(x, df)] + Mark(rest), Parse(rest, df))
    ensures SignedText(x) + rest != "" && !IsBlank((SignedText(x) + rest)[0])
  {
    var s := TermText(x.term) + rest;
    TermClauseParses(x.term, rest, df, x.sign != Minus);
    hide ParseClause, Parse, Mark, Plain, TermText, ClauseOf;
    hide *;
    SignSkipped(x.sign, s, df);
    SignedStart(x.sign, s);
    SignedParts(x, rest, df);
  }

  lemma {:induction false} SignedParts(x: Signed, rest: string, df: string)
    ensures SignedText(x) + rest == SignText(x.sign) + (TermText(x.term) + rest)
    ensures SignedClause(x, df) == ClauseOf(x.term, df, x.sign != Minus)
  {
    hide SignText, TermText, ClauseOf;
  }

  lemma {:induction false} SignedStart(sign: Sign, s: string)
    requires StartsPlain(s)
    ensures SignText(sign) + s != "" && !IsBlank((SignText(sign) + s)[0])
  {
    if sign == NoSign {
      assert SignText(sign) + s == s;
    }
  }

  // ------------------------------------------------------------------
  // Parsing groups and queries
  // ------------------------------------------------------------------

  lemma {:induction false} KeywordSkipped(s: string, df: string)
    requires s != "" && !IsBlank(s[0])
    ensures Parse(" OR " + s, df) == Parse(s, df) && Mark(" OR " + s) == [OR]
  {
    var k := "OR " + s;
    assert " OR " + s == " " + k && (" " + k)[1..] == k;
    assert k[2..] == " " + s;
    assert Parse(" OR " + s, df) == Parse(k, df) by { BlankSkipped(k, df); }
    assert Parse(k, df) == ParseClause(k, df, true) by { assert Drop(k, IsBlank) == k; }
    assert ParseClause(k, df, true) == Parse(" " + s, df);
    BlankSkipped(s, df);
    assert Drop(" " + k, SpaceOrTab) == k;
  }

  /** Text that does not start with the keyword is not an alternative. */
  lemma {:induction false} NotMarked(s: string)
    requires s != "" && !IsBlank(s[0])
    requires !(|s| >= 2 && s[0] == 'O' && s[1] == 'R' && (|s| == 2 || SpaceOrTab(s[2])))
    ensures Mark(" " + s) == []
  {
    assert (" " + s)[1..] == s;
    assert Drop(" " + s, SpaceOrTab) == s;
  }

  lemma {:induction false} TermNotMarked(t: Term, rest: string)
    requires Plain(t) && Ends(rest)
    ensures Mark(" " + (TermText(t) + rest)) == []
  {
    hide Mark;
    match t
    case Word(w) =>
      TokenIsNotKeyword(w, rest);
      NotMarked(w + rest);
    case Fielded(f, x) =>
      FieldedToken(f, x, "", true);
      TokenIsNotKeyword(f + ":" + x, rest);
      assert (f + ":" + x)[0] == f[0];
      NotMarked(f + ":" + x + rest);
    case Phrase(p) =>
      NotMarked(TermText(t) + rest);
  }

  lemma {:induction false} SignedNotMarked(x: Signed, rest: string)
    requires Plain(x.term) && Ends(rest)
    ensures Mark(" " + (SignedText(x) + rest)) == []
  {
    hide Mark, TermText, Plain;
    assert SignedText(x) + rest == SignText(x.sign) + (TermText(x.term) + rest);
    if x.sign == NoSign {
      TermNotMarked(x.term, rest);
      assert SignText(x.sign) + (TermText(x.term) + rest) == TermText(x.term) + rest;
    } else {
      NotMarked(SignedText(x) + rest);
    }
  }

  lemma {:induction false} GroupParses(g: Group, rest: string, df: string)
    requires PlainGroup(g) && Ends(rest)
    ensures Parse(GroupText(g) + rest, df) == Prepend(GroupClauses(g, df) + Mark(rest), Parse(rest, df))
    ensures GroupText(g) + rest != "" && !IsBlank((GroupText(g) + rest)[0]) && Mark(" " + (GroupText(g) + rest)) == []
    decreases |g|
  {
    hide Parse, Mark, Plain, SignedText, SignedClause, ParseClause;
    assert g[0] in g;
    if |g| == 1 {
      SignedParses(g[0], rest, df);
      SignedNotMarked(g[0], rest);
    } else {
      var tail := GroupText(g[1..]) + rest;
      GroupParses(g[1..], rest, df);
      var more := " OR " + tail;
      assert GroupText(g) + rest == SignedText(g[0]) + more by {
        Reassociate(SignedText(g[0]), " OR ", GroupText(g[1..]), rest);
      }
      SignedParses(g[0], more, df);
      SignedNotMarked(g[0], more);
      KeywordSkipped(tail, df);
      hide GroupText;
      var c, cs := SignedClause(g[0], df), GroupClauses(g[1..], df) + Mark(rest);
      PrependTwice([c] + [OR], cs, Parse(rest, df));
      assert [c] + [OR] + cs == [c, OR] + GroupClauses(g[1..], df) + Mark(rest);
    }
  }

  /** The text of a query parses to its clauses. */
  lemma {:induction false} QueryParses(gs: seq<Group>, df: string)
    requires PlainQuery(gs)
    ensures Parse(QueryText(gs), df) == Some(QueryClauses(gs, df))
    ensures gs != [] ==>
      var s := QueryText(gs); s != "" && !IsBlank(s[0]) && Mark(" " + s) == []
  {
    if gs == [] {
      assert Drop("", IsBlank) == "";
    } else {
      assert gs[0] in gs;
      hide Parse, PlainGroup, GroupText, GroupClauses;
      QueryParses(gs[1..], df);
      EndOfText(df);
      hide Mark;
      if |gs| == 1 {
        GroupParses(gs[0], "", df);
        assert GroupText(gs[0]) + "" == GroupText(gs[0]);
      } else {
        var rest := " " + QueryText(gs[1..]);
        GroupParses(gs[0], rest, df);
        BlankSkipped(QueryText(gs[1..]), df);
      }
      var cs := GroupClauses(gs[0], df);
      assert cs + [] == cs;
    }
  }

  lemma {:induction false} EndOfText(df: string)
    ensures Parse("", df) == Some([]) && Mark("") == []
  {
    EmptyText("", df);
    hide Parse;
  }

  // ------------------------------------------------------------------
  // Evaluating
  // ------------------------------------------------------------------

  function AnyHits(g: Group, df: string, hits: Clause -> set<string>): (r: set<string>)
    ensures forall id :: id in r <==> exists x :: x in g && id in hits(SignedClause(x, df))
  {
    if g == [] then {}
    else
      assert g == [g[0]] + g[1..];
      hits(SignedClause(g[0], df)) + AnyHits(g[1..], df, hits)
  }

  /** A phrase or a field's value that the evaluation takes for the marker. */
  predicate MarkerLike(t: Term) { (t.Phrase? || t.Fielded?) && t.text == "OR" }

  /** No term that is looked at on its own is taken for the marker: the first, and each behind a minus sign. */
  predicate Clear(g: Group) {
    g != [] ==> !MarkerLike(g[0].term) && (g[0].sign == Minus ==> Clear(g[1..]))
  }

  predicate ClearQuery(gs: seq<Group>) { forall g :: g in gs ==> Clear(g) }

  /** A chain ends where no marker follows. */
  predicate NoMarkerFirst(cs: seq<Clause>) { cs == [] || cs[0].text != "OR" }

  /** In a chain the signs of the terms do not count, and neither does their text. */
  lemma {:induction false} ChainOfGroup(g: Group, more: seq<Clause>, u: set<string>, df: string,
                                        hits: Clause -> set<string>)
    requires g != []
    ensures Chain([OR] + GroupClauses(g, df) + more, u, hits) == Chain(more, u + AnyHits(g, df, hits), hits)
    decreases |g|
  {
    var c, rest := SignedClause(g[0], df), g[1..];
    var cs := [OR] + GroupClauses(g, df) + more;
    var inner := if rest == [] then more else [OR] + GroupClauses(rest, df) + more;
    assert cs == [OR, c] + inner && cs[2..] == inner;
    assert AnyHits(g, df, hits) == hits(c) + AnyHits(rest, df, hits);
    hide GroupClauses, AnyHits, SignedClause;
    ChainStep(cs, u, hits);
    hide Chain;
    if rest == [] {
      NoHits(rest, df, hits);
    } else {
      ChainOfGroup(rest, more, u + hits(c), df, hits);
    }
    assert u + hits(c) + AnyHits(rest, df, hits) == u + (hits(c) + AnyHits(rest, df, hits));
    assert u + hits(c) + {} == u + hits(c);
  }

  lemma {:induction false} NoHits(g: Group, df: string, hits: Clause -> set<string>)
    requires g == []
    ensures AnyHits(g, df, hits) == {}
  {
  }

  lemma {:induction false} ChainEnds(cs: seq<Clause>, u: set<string>, hits: Clause -> set<string>)
    requires NoMarkerFirst(cs)
    ensures Chain(cs, u, hits) == (u, cs)
  {
  }

  lemma {:induction false} ChainStep(cs: seq<Clause>, u: set<string>, hits: Clause -> set<string>)
    requires |cs| >= 2 && cs[0].text == "OR"
    ensures Chain(cs, u, hits) == Chain(cs[2..], u + hits(cs[1]), hits)
  {
  }

  lemma {:induction false} EvalMust(cs: seq<Clause>, found: set<string>, hits: Clause -> set<string>)
    requires cs != [] && cs[0].text != "OR" && cs[0].must
    ensures var (u, rest) := Chain(cs[1..], hits(cs[0]), hits); Eval(cs, found, hits) == Eval(rest, found * u, hits)
  {
  }

  lemma {:induction false} EvalMustNot(cs: seq<Clause>, found: set<string>, hits: Clause -> set<string>)
    requires cs != [] && cs[0].text != "OR" && !cs[0].must
    ensures Eval(cs, found, hits) == Eval(cs[1..], found - hits(cs[0]), hits)
  {
  }

  lemma {:induction false} EvalMarker(c: Clause, more: seq<Clause>, found: set<string>, hits: Clause -> set<string>)
    requires c.text == "OR"
    ensures Eval([c] + more, found, hits) == Eval(more, found, hits)
  {
    assert ([c] + more)[1..] == more;
  }

  lemma {:induction false} ClearClause(x: Signed, df: string)
    requires Plain(x.term)
    ensures SignedClause(x, df).text == "OR" <==> MarkerLike(x.term)
    ensures SignedClause(x, df).must <==> x.sign != Minus
  {
  }

  /** Terms with a minus sign in front exclude, one by one; the first term without one starts a chain of all that
      follow. */
  function After(g: Group, found: set<string>, df: string, hits: Clause -> set<string>): set<string> {
    if g == [] then found
    else if g[0].sign == Minus then After(g[1..], found - hits(SignedClause(g[0], df)), df, hits)
    else found * AnyHits(g, df, hits)
  }

  lemma {:induction false} FirstOfGroup(g: Group, more: seq<Clause>, df: string)
    requires g != []
    ensures var chain := if |g| == 1 then more else [OR] + (GroupClauses(g[1..], df) + more);
      var cs := GroupClauses(g, df) + more; cs == [SignedClause(g[0], df)] + chain && cs[1..] == chain
  {
    hide SignedClause;
    if |g| > 1 {
      var c, rest := SignedClause(g[0], df), GroupClauses(g[1..], df);
      assert [c, OR] + rest + more == [c] + ([OR] + (rest + more));
    }
  }

  /** The evaluation behind a group, where a chain may go on. */
  function Through(g: Group, more: seq<Clause>, found: set<string>, df: string,
                   hits: Clause -> set<string>): set<string> {
    if g == [] then Eval(more, found, hits)
    else if g[0].sign == Minus then Through(g[1..], more, found - hits(SignedClause(g[0], df)), df, hits)
    else var (u, rest) := Chain(more, AnyHits(g, df, hits), hits); Eval(rest, found * u, hits)
  }

  lemma {:induction false} EvalThrough(g: Group, more: seq<Clause>, found: set<string>, df: string,
                                       hits: Clause -> set<string>)
    requires PlainGroup(g) && Clear(g)
    ensures Eval(GroupClauses(g, df) + more, found, hits) == Through(g, more, found, df, hits)
  {
    assert g[0] in g;
    ClearClause(g[0], df);
    FirstOfGroup(g, more, df);
    var c, rest, cs := SignedClause(g[0], df), g[1..], GroupClauses(g, df) + more;
    hide GroupClauses, SignedClause, Eval, Plain, Chain, AnyHits;
    if c.must {
      EvalMust(cs, found, hits);
      ChainOfRest(g, more, df, hits);
    } else {
      EvalMustNot(cs, found, hits);
      if rest != [] {
        assert forall x :: x in rest ==> x in g;
        EvalMarker(OR, GroupClauses(rest, df) + more, found - hits(c), hits);
        EvalThrough(rest, more, found - hits(c), df, hits);
      }
    }
  }

  lemma {:induction false} ChainOfRest(g: Group, more: seq<Clause>, df: string, hits: Clause -> set<string>)
    requires g != []
    ensures var chain := if |g| == 1 then more else [OR] + (GroupClauses(g[1..], df) + more);
      Chain(chain, hits(SignedClause(g[0], df)), hits) == Chain(more, AnyHits(g, df, hits), hits)
  {
    var u, rest := hits(SignedClause(g[0], df)), g[1..];
    assert AnyHits(g, df, hits) == u + AnyHits(rest, df, hits);
    hide GroupClauses, SignedClause, AnyHits, Chain;
    if rest == [] {
      NoHits(rest, df, hits);
      assert u + {} == u;
    } else {
      ChainOfGroup(rest, more, u, df, hits);
      assert [OR] + GroupClauses(rest, df) + more == [OR] + (GroupClauses(rest, df) + more);
    }
  }

  lemma {:induction false} ThroughEnds(g: Group, more: seq<Clause>, found: set<string>, df: string,
                                       hits: Clause -> set<string>)
    requires NoMarkerFirst(more)
    ensures Through(g, more, found, df, hits) == Eval(more, After(g, found, df, hits), hits)
  {
    hide Eval, AnyHits, Chain;
    if g != [] {
      if g[0].sign == Minus {
        ThroughEnds(g[1..], more, found - hits(SignedClause(g[0], df)), df, hits);
      } else {
        ChainEnds(more, AnyHits(g, df, hits), hits);
      }
    }
  }

  lemma {:induction false} EvalOfGroup(g: Group, more: seq<Clause>, found: set<string>, df: string,
                                       hits: Clause -> set<string>)
    requires PlainGroup(g) && Clear(g) && NoMarkerFirst(more)
    ensures Eval(GroupClauses(g, df) + more, found, hits) == Eval(more, After(g, found, df, hits), hits)
    ensures NoMarkerFirst(GroupClauses(g, df) + more)
  {
    EvalThrough(g, more, found, df, hits);
    ThroughEnds(g, more, found, df, hits);
    GroupStartsClear(g, more, df);
    hide Eval, After, Through, GroupClauses;
  }

  lemma {:induction false} GroupStartsClear(g: Group, more: seq<Clause>, df: string)
    requires PlainGroup(g) && Clear(g)
    ensures NoMarkerFirst(GroupClauses(g, df) + more)
  {
    assert g[0] in g;
    ClearClause(g[0], df);
    FirstOfGroup(g, more, df);
    hide SignedClause, GroupClauses;
  }

  /** What a group of signed terms selects, given which terms a document matches. */
  predicate Selects(g: Group, matches: Term -> bool) {
    if g == [] then true
    else if g[0].sign == Minus then !matches(g[0].term) && Selects(g[1..], matches)
    else exists x :: x in g && matches(x.term)
  }

  /** Hits do not depend on the sign. */
  predicate MatchesBy(g: Group, id: string, df: string, hits: Clause -> set<string>, matches: Term -> bool) {
    forall x :: x in g ==> (id in hits(SignedClause(x, df)) <==> matches(x.term))
  }

  lemma {:induction false} AfterSelects(g: Group, found: set<string>, df: string, hits: Clause -> set<string>,
                                        id: string, matches: Term -> bool)
    requires MatchesBy(g, id, df, hits, matches)
    ensures id in After(g, found, df, hits) <==> id in found && Selects(g, matches)
  {
    if g != [] {
      assert g[0] in g;
      if g[0].sign == Minus {
        AfterSelects(g[1..], found - hits(SignedClause(g[0], df)), df, hits, id, matches);
      }
    }
  }

  lemma {:induction false} EvalOfQuery(gs: seq<Group>, found: set<string>, df: string, hits: Clause -> set<string>,
                                       id: string, matches: Term -> bool)
    requires PlainQuery(gs) && ClearQuery(gs) && forall g :: g in gs ==> MatchesBy(g, id, df, hits, matches)
    ensures id in Eval(QueryClauses(gs, df), found, hits) <==>
            id in found && forall g :: g in gs ==> Selects(g, matches)
    ensures NoMarkerFirst(QueryClauses(gs, df))
    decreases |gs|
  {
    if gs != [] {
      assert gs == [gs[0]] + gs[1..];
      var g, more := gs[0], QueryClauses(gs[1..], df);
      assert g in gs;
      hide Eval, PlainGroup, Clear, Selects, GroupClauses, After, MatchesBy;
      AfterSelects(g, found, df, hits, id, matches);
      EvalOfQuery(gs[1..], After(g, found, df, hits), df, hits, id, matches);
      EvalOfGroup(g, more, found, df, hits);
      assert forall x :: x in gs <==> x == g || x in gs[1..];
    }
  }

  // ------------------------------------------------------------------
  // What documents that means
  // ------------------------------------------------------------------

  predicate TermMatches(doc: Doc, t: Term, df: string) {
    match t
    case Word(w) => exists f, tok :: f in FieldNames(df) && tok in Tokenize(w) && DocHas(doc, f, tok)
    case Fielded(g, x) => exists f, tok :: f in FieldNames(g) && tok in Tokenize(x) && DocHas(doc, f, tok)
    case Phrase(p) => exists f :: f in FieldNames(df) && DocHasText(doc, f) && Contains(Words(doc[f]), Tokenize(p))
  }

  lemma {:induction false} ClauseFindsExactly(st: State, t: Term, df: string, must: bool, id: string)
    requires InvertedExact(st) && id in st.docs
    ensures id in ClauseHits(st, ClauseOf(t, df, must)) <==> TermMatches(st.docs[id], t, df)
  {
    var c := ClauseOf(t, df, must);
    assert id in ClauseHits(st, c) <==> exists f :: f in FieldNames(c.field) && id in FieldHits(st, c, f);
    hide InvertedExact, FieldNames, Tokenize, MatchWords, Words, Contains, ClauseHits;
    forall f ensures !c.phrase ==>
      (id in FieldHits(st, c, f) <==> exists tok :: tok in Tokenize(c.text) && DocHas(st.docs[id], f, tok))
    {
      MatchFindsExactly(st, f, c.text, id);
      if !c.phrase && exists tok :: tok in Tokenize(c.text) && DocHas(st.docs[id], f, tok) {
        var tok :| tok in Tokenize(c.text) && DocHas(st.docs[id], f, tok);
        assert HasWord(st.docs, id, f, tok);
      }
    }
    if t.Phrase? {
      assert forall f :: id in FieldHits(st, c, f) <==>
        DocHasText(st.docs[id], f) && Contains(Words(st.docs[id][f]), Tokenize(c.text));
    }
  }

  /** A query of signed groups finds exactly the documents that every group selects. */
  lemma {:induction false} SignedQueryFindsExactly(st: State, gs: seq<Group>, df: string, id: string)
    requires InvertedExact(st) && PlainQuery(gs) && ClearQuery(gs)
    ensures var r := Parse(QueryText(gs), df);
      r.Some? &&
      (id in Eval(r.value, st.docs.Keys, c => ClauseHits(st, c)) <==>
       id in st.docs && forall g :: g in gs ==> Selects(g, t => TermMatches(st.docs[id], t, df)))
  {
    var hits := (c: Clause) => ClauseHits(st, c);
    QueryParses(gs, df);
    if id in st.docs {
      var matches := (t: Term) => TermMatches(st.docs[id], t, df);
      hide Parse, QueryText, QueryClauses, Eval, InvertedExact, ClauseHits;
      hide TermMatches, ClauseOf, Selects, PlainGroup, Clear;
      forall g | g in gs ensures MatchesBy(g, id, df, hits, matches) {
        forall x | x in g ensures id in hits(SignedClause(x, df)) <==> matches(x.term) {
          ClauseFindsExactly(st, x.term, df, x.sign != Minus, id);
        }
      }
      EvalOfQuery(gs, st.docs.Keys, df, hits, id, matches);
    } else {
      EvalWithin(QueryClauses(gs, df), st.docs.Keys, hits);
    }
  }

  lemma {:induction false} EvalWithin(cs: seq<Clause>, found: set<string>, hits: Clause -> set<string>)
    ensures Eval(cs, found, hits) <= found
    decreases |cs|
  {
    if cs != [] {
      if cs[0].text == "OR" {
        EvalWithin(cs[1..], found, hits);
      } else if !cs[0].must {
        EvalWithin(cs[1..], found - hits(cs[0]), hits);
      } else {
        var (u, rest) := Chain(cs[1..], hits(cs[0]), hits);
        EvalWithin(rest, found * u, hits);
      }
    }
  }

  // ------------------------------------------------------------------
  // What the signs seem to say
  // ------------------------------------------------------------------

  /** Alternatives, one of which holds: a term with a minus sign when it does not match. */
  predicate Reads(g: Group, matches: Term -> bool) {
    exists x :: x in g && (matches(x.term) <==> x.sign != Minus)
  }

  predicate NoMinus(g: Group) { forall x :: x in g ==> x.sign != Minus }

  predicate DistinctTerms(g: Group) { forall i, j :: 0 <= i < j < |g| ==> g[i].term != g[j].term }

  /** A group is evaluated as it reads, whatever its terms match, if and only if it is a single term or has no minus
      sign. Behind an alternative a minus sign is lost, in front of one the alternatives become further demands. */
  lemma {:induction false} ReadsAsWrittenExactlyWhen(g: Group)
    requires g != [] && DistinctTerms(g)
    ensures (forall matches: Term -> bool :: Selects(g, matches) <==> Reads(g, matches)) <==> |g| == 1 || NoMinus(g)
  {
    if |g| == 1 || NoMinus(g) {
      forall matches: Term -> bool ensures Selects(g, matches) <==> Reads(g, matches) {
        AsWritten(g, matches);
      }
    } else if g[0].sign == Minus {
      FirstMinusDiffers(g);
    } else {
      var matches := (t: Term) => false;
      var x :| x in g && x.sign == Minus;
      assert Reads(g, matches) && !Selects(g, matches);
    }
  }

  lemma {:induction false} AsWritten(g: Group, matches: Term -> bool)
    requires g != [] && (|g| == 1 || NoMinus(g))
    ensures Selects(g, matches) <==> Reads(g, matches)
  {
    assert g[0] in g;
  }

  /** Whatever the second term is, a document can satisfy it as it reads and yet match the excluded first term. */
  lemma {:induction false} FirstMinusDiffers(g: Group)
    requires |g| > 1 && DistinctTerms(g) && g[0].sign == Minus
    ensures exists matches: Term -> bool :: Reads(g, matches) && !Selects(g, matches)
  {
    var matches := (t: Term) => t == g[0].term || (t == g[1].term && g[1].sign != Minus);
    assert g[1] in g && g[1].term != g[0].term;
    assert Reads(g, matches) && !Selects(g, matches);
  }

  /** The usual queries: alternatives without minus signs and excluded terms. They find exactly the documents that match
      some term of every group and no excluded term. */
  lemma {:induction false} QueryFindsExactly(st: State, gs: seq<Group>, df: string, id: string)
    requires InvertedExact(st) && PlainQuery(gs) && ClearQuery(gs)
    requires forall g :: g in gs ==> |g| == 1 || NoMinus(g)
    ensures var r := Parse(QueryText(gs), df);
      r.Some? &&
      (id in Eval(r.value, st.docs.Keys, c => ClauseHits(st, c)) <==>
       id in st.docs && forall g :: g in gs ==> Reads(g, t => TermMatches(st.docs[id], t, df)))
  {
    SignedQueryFindsExactly(st, gs, df, id);
    if id in st.docs {
      var matches := (t: Term) => TermMatches(st.docs[id], t, df);
      hide Parse, QueryText, Eval, InvertedExact, ClauseHits, TermMatches, Selects, Reads, NoMinus, Clear, Plain;
      forall g | g in gs ensures Selects(g, matches) <==> Reads(g, matches) {
        AsWritten(g, matches);
      }
    }
  }

  // ------------------------------------------------------------------
  // Terms that are taken for the marker
  // ------------------------------------------------------------------

  ghost predicate Alike(a: seq<Clause>, b: seq<Clause>, hits: Clause -> set<string>) {
    forall found :: Eval(a, found, hits) == Eval(b, found, hits)
  }

  /** Alike on their own, and behind a chain that goes on into them. */
  ghost predicate AlikeBehind(a: seq<Clause>, b: seq<Clause>, hits: Clause -> set<string>) {
    && Alike(a, b, hits)
    && forall u :: Chain(a, u, hits).0 == Chain(b, u, hits).0 && Alike(Chain(a, u, hits).1, Chain(b, u, hits).1, hits)
  }

  lemma {:induction false} ThroughAlike(g: Group, a: seq<Clause>, b: seq<Clause>, df: string,
                                        hits: Clause -> set<string>, found: set<string>)
    requires AlikeBehind(a, b, hits)
    ensures Through(g, a, found, df, hits) == Through(g, b, found, df, hits)
  {
    hide Eval, Chain, AnyHits;
    if g != [] && g[0].sign == Minus {
      ThroughAlike(g[1..], a, b, df, hits, found - hits(SignedClause(g[0], df)));
    }
  }

  lemma {:induction false} QueryKeepsAlike(gs: seq<Group>, a: seq<Clause>, b: seq<Clause>, df: string,
                                           hits: Clause -> set<string>)
    requires PlainQuery(gs) && ClearQuery(gs) && AlikeBehind(a, b, hits)
    ensures AlikeBehind(QueryClauses(gs, df) + a, QueryClauses(gs, df) + b, hits)
  {
    if gs == [] {
      assert [] + a == a && [] + b == b;
    } else {
      var g, more := gs[0], QueryClauses(gs[1..], df);
      assert g in gs && forall x :: x in gs[1..] ==> x in gs;
      QueryKeepsAlike(gs[1..], a, b, df, hits);
      GroupBehind(g, more + a, more + b, df, hits);
      assert GroupClauses(g, df) + more + a == GroupClauses(g, df) + (more + a);
      assert GroupClauses(g, df) + more + b == GroupClauses(g, df) + (more + b);
    }
  }

  lemma {:induction false} GroupBehind(g: Group, a: seq<Clause>, b: seq<Clause>, df: string,
                                       hits: Clause -> set<string>)
    requires PlainGroup(g) && Clear(g) && AlikeBehind(a, b, hits)
    ensures AlikeBehind(GroupClauses(g, df) + a, GroupClauses(g, df) + b, hits)
  {
    var ga, gb := GroupClauses(g, df) + a, GroupClauses(g, df) + b;
    GroupStartsClear(g, a, df);
    GroupStartsClear(g, b, df);
    hide GroupClauses, Eval, Chain, Clear, PlainGroup, Through, NoMarkerFirst;
    forall found ensures Eval(ga, found, hits) == Eval(gb, found, hits) {
      EvalThrough(g, a, found, df, hits);
      EvalThrough(g, b, found, df, hits);
      ThroughAlike(g, a, b, df, hits, found);
    }
    forall u ensures Chain(ga, u, hits) == (u, ga) && Chain(gb, u, hits) == (u, gb) {
      ChainEnds(ga, u, hits);
      ChainEnds(gb, u, hits);
    }
  }

  lemma {:induction false} ClausesOfConcat(a: seq<Group>, b: seq<Group>, df: string)
    ensures QueryClauses(a + b, df) == QueryClauses(a, df) + QueryClauses(b, df)
  {
    hide GroupClauses;
    if a == [] {
      assert a + b == b;
    } else {
      assert (a + b)[0] == a[0] && (a + b)[1..] == a[1..] + b;
      ClausesOfConcat(a[1..], b, df);
    }
  }

  lemma {:induction false} ClausesOfOne(g: Group, df: string)
    ensures QueryClauses([g], df) == GroupClauses(g, df)
  {
    assert [g][1..] == [];
  }

  lemma {:induction false} ClausesOfMiddle(before: seq<Group>, g: Group, after: seq<Group>, df: string)
    ensures QueryClauses(before + [g] + after, df)
         == QueryClauses(before, df) + (GroupClauses(g, df) + QueryClauses(after, df))
  {
    ClausesOfConcat(before + [g], after, df);
    ClausesOfConcat(before, [g], df);
    ClausesOfOne(g, df);
  }

  lemma {:induction false} ClausesOfJoined(a: Group, b: Group, df: string)
    requires a != [] && b != []
    ensures GroupClauses(a + b, df) == GroupClauses(a, df) + [OR] + GroupClauses(b, df)
  {
    hide SignedClause;
    if |a| == 1 {
      assert (a + b)[0] == a[0] && (a + b)[1..] == b;
    } else {
      assert (a + b)[0] == a[0] && (a + b)[1..] == a[1..] + b;
      ClausesOfJoined(a[1..], b, df);
    }
  }

  /** Whatever is taken for the marker might as well be the marker. */
  lemma {:induction false} MarkerIsMarker(c: Clause, more: seq<Clause>, hits: Clause -> set<string>)
    requires c.text == "OR"
    ensures AlikeBehind([c] + more, [OR] + more, hits)
    ensures AlikeBehind([OR], [], hits)
  {
    forall found
      ensures Eval([c] + more, found, hits) == Eval([OR] + more, found, hits)
      ensures Eval([OR], found, hits) == Eval([], found, hits)
    {
      EvalMarker(c, more, found, hits);
      EvalMarker(OR, more, found, hits);
      EvalMarker(OR, [], found, hits);
      assert [OR] + [] == [OR];
    }
    if more == [] {
      assert [c] + more == [c] && [OR] + more == [OR];
    } else {
      hide Eval;
      assert ([c] + more)[2..] == ([OR] + more)[2..];
    }
  }

  /** The two queries with the keyword between them. */
  function Joined(before: seq<Group>, after: seq<Group>): seq<Group> {
    if before == [] || after == [] then before + after
    else before[..|before|-1] + [before[|before|-1] + after[0]] + after[1..]
  }

  lemma {:induction false} ClausesOfQueriesJoined(before: seq<Group>, after: seq<Group>, df: string)
    requires before != [] && after != [] && before[|before|-1] != [] && after[0] != []
    ensures QueryClauses(Joined(before, after), df) == QueryClauses(before, df) + ([OR] + QueryClauses(after, df))
  {
    var n := |before| - 1;
    var l, a := before[n], after[0];
    assert before == before[..n] + [l] && after == [a] + after[1..];
    hide GroupClauses, QueryClauses;
    ClausesOfMiddle(before[..n], l + a, after[1..], df);
    ClausesOfConcat(before[..n], [l], df);
    ClausesOfConcat([a], after[1..], df);
    ClausesOfOne(l, df);
    ClausesOfOne(a, df);
    ClausesOfJoined(l, a, df);
    JoinedParts(QueryClauses(before[..n], df), GroupClauses(l, df), GroupClauses(a, df), QueryClauses(after[1..], df));
  }

  lemma {:induction false} JoinedParts(first: seq<Clause>, l: seq<Clause>, a: seq<Clause>, rest: seq<Clause>)
    ensures first + (l + [OR] + a + rest) == first + l + ([OR] + (a + rest))
  {
  }

  lemma {:induction false} MarkerJoins(before: seq<Group>, c: Clause, after: seq<Group>, df: string, found: set<string>,
                                       hits: Clause -> set<string>)
    requires PlainQuery(before) && ClearQuery(before) && PlainQuery(after) && c.text == "OR"
    ensures Eval(QueryClauses(before, df) + ([c] + QueryClauses(after, df)), found, hits)
         == Eval(QueryClauses(Joined(before, after), df), found, hits)
  {
    var b, a := QueryClauses(before, df), QueryClauses(after, df);
    MarkerIsMarker(c, a, hits);
    QueryKeepsAlike(before, [c] + a, [OR] + a, df, hits);
    QueryKeepsAlike(before, [OR], [], df, hits);
    hide Chain, Eval;
    if before == [] {
      assert b + ([OR] + a) == [OR] + a && before + after == after;
      EvalMarker(OR, a, found, hits);
    } else if after == [] {
      assert [OR] + a == [OR] && b + [] == b && before + after == before;
    } else {
      assert before[|before|-1] in before && after[0] in after;
      ClausesOfQueriesJoined(before, after, df);
    }
  }

  /** Standing on its own between two queries, whatever its sign, a term that is taken for the marker joins the group
      before it and the group behind it, as the keyword does. */
  lemma {:induction false} LoneMarkerJoins(before: seq<Group>, m: Signed, after: seq<Group>, df: string,
                                           found: set<string>, hits: Clause -> set<string>)
    requires PlainQuery(before) && ClearQuery(before) && PlainQuery(after) && Plain(m.term) && MarkerLike(m.term)
    ensures var r, j := Parse(QueryText(before + [[m]] + after), df), Parse(QueryText(Joined(before, after)), df);
      r.Some? && j.Some? && Eval(r.value, found, hits) == Eval(j.value, found, hits)
  {
    hide Eval, Parse, QueryText, QueryClauses, GroupClauses, SignedClause, Joined;
    ClearClause(m, df);
    LonePlain(before, [m], after);
    QueryParses(before + [[m]] + after, df);
    JoinedPlain(before, after);
    QueryParses(Joined(before, after), df);
    ClausesOfMiddle(before, [m], after, df);
    SingleClause(m, df);
    MarkerJoins(before, SignedClause(m, df), after, df, found, hits);
  }

  lemma {:induction false} SingleClause(m: Signed, df: string)
    ensures GroupClauses([m], df) == [SignedClause(m, df)]
  {
  }

  lemma {:induction false} LonePlain(before: seq<Group>, g: Group, after: seq<Group>)
    requires PlainQuery(before) && PlainQuery(after) && PlainGroup(g)
    ensures PlainQuery(before + [g] + after)
  {
    hide PlainGroup;
  }

  lemma {:induction false} JoinedPlain(before: seq<Group>, after: seq<Group>)
    requires PlainQuery(before) && PlainQuery(after)
    ensures PlainQuery(Joined(before, after))
  {
    hide Plain;
    if before != [] && after != [] {
      assert before[|before|-1] in before && after[0] in after;
      LonePlain(before[..|before|-1], before[|before|-1] + after[0], after[1..]);
    }
  }

  lemma {:induction false} MarkerHitsNothing(st: State)
    ensures ClauseHits(st, OR) == {}
  {
    assert Split("") == [""];
    assert TrimSpace("") == "";
  }

  lemma {:induction false} LeadingMarkerAlike(c: Clause, cs: seq<Clause>, hits: Clause -> set<string>)
    requires c.text == "OR" && hits(OR) == {}
    ensures AlikeBehind([c, OR] + cs, cs, hits)
  {
    assert [c, OR] + cs == [c] + ([OR] + cs);
    forall found ensures Eval([c, OR] + cs, found, hits) == Eval(cs, found, hits) {
      EvalMarker(c, [OR] + cs, found, hits);
      EvalMarker(OR, cs, found, hits);
    }
    hide Eval;
    forall u ensures Chain([c, OR] + cs, u, hits) == Chain(cs, u, hits) {
      ChainStep([c, OR] + cs, u, hits);
      assert ([c, OR] + cs)[2..] == cs && u + {} == u;
    }
  }

  /** At the head of a longer group it drops out. */
  lemma {:induction false} LeadingMarkerDrops(st: State, before: seq<Group>, m: Signed, g: Group, after: seq<Group>,
                                              df: string, found: set<string>)
    requires PlainQuery(before) && ClearQuery(before) && PlainQuery(after) && PlainGroup(g)
    requires Plain(m.term) && MarkerLike(m.term)
    ensures var r, j := Parse(QueryText(before + [[m] + g] + after), df), Parse(QueryText(before + [g] + after), df);
      r.Some? && j.Some? && Eval(r.value, found, c => ClauseHits(st, c)) == Eval(j.value, found, c => ClauseHits(st, c))
  {
    var hits := (c: Clause) => ClauseHits(st, c);
    hide Eval, Chain, Parse, QueryText, QueryClauses, GroupClauses, SignedClause, ClauseHits;
    ClearClause(m, df);
    MarkerHitsNothing(st);
    LonePlain(before, [m] + g, after);
    LonePlain(before, g, after);
    QueryParses(before + [[m] + g] + after, df);
    QueryParses(before + [g] + after, df);
    ClausesOfMiddle(before, [m] + g, after, df);
    ClausesOfMiddle(before, g, after, df);
    var c, tail := SignedClause(m, df), GroupClauses(g, df) + QueryClauses(after, df);
    LeadingClauses(m, g, QueryClauses(after, df), df);
    LeadingMarkerAlike(c, tail, hits);
    QueryKeepsAlike(before, [c, OR] + tail, tail, df, hits);
  }

  lemma {:induction false} LeadingClauses(m: Signed, g: Group, a: seq<Clause>, df: string)
    requires g != []
    ensures GroupClauses([m] + g, df) + a == [SignedClause(m, df), OR] + (GroupClauses(g, df) + a)
  {
    assert ([m] + g)[0] == m && ([m] + g)[1..] == g;
    hide SignedClause;
  }
}
