/** The query_string language: what its text parses to, and what the clauses find (internal/search/multimatch.go,
    internal/search/suggest.go). */
module QueryString {
  import opened Common
  import opened Text
  import opened Tokenizer
  import opened InvertedIndex
  import IndexRuns

  /** A clause; the marker between alternatives is itself a clause, told apart by its text alone. */
  datatype Clause = Clause(field: string, must: bool, phrase: bool, text: string)

  const OR: Clause := Clause("", false, false, "OR")

  predicate IsBlank(c: char) { c == ' ' || c == '\t' || c == '\n' }

  predicate NotBlank(c: char) { !IsBlank(c) }

  predicate SpaceOrTab(c: char) { c == ' ' || c == '\t' }

  predicate NotColon(c: char) { c != ':' }

  function Drop(s: string, p: char -> bool): (r: string)
    ensures |r| <= |s| && (r != "" ==> !p(r[0]))
  {
    s[Run(s, p)..]
  }

  // ------------------------------------------------------------------
  // Parsing
  // ------------------------------------------------------------------

  predicate IsSign(c: char) { c == '+' || c == '-' }

  /** The keyword at the front of a clause. */
  predicate AtOr(s: string) { |s| >= 2 && s[0] == 'O' && s[1] == 'R' && (|s| == 2 || s[2] == ' ') }

  /** Does the keyword follow? Only then are two clauses alternatives. */
  predicate PeekOr(s: string) {
    var r := Drop(s, SpaceOrTab);
    |r| >= 2 && r[0] == 'O' && r[1] == 'R' && (|r| == 2 || SpaceOrTab(r[2]))
  }

  function Mark(s: string): seq<Clause> { if PeekOr(s) then [OR] else [] }

  /** A token with a colon that is not its first character names a field. */
  function TokenClause(tok: string, defaultField: string, must: bool): Clause {
    var k := Run(tok, NotColon);
    if 0 < k < |tok| then Clause(tok[..k], must, false, tok[k+1..]) else Clause(defaultField, must, false, tok)
  }

  function Prepend(cs: seq<Clause>, r: Option<seq<Clause>>): Option<seq<Clause>> {
    if r.Some? then Some(cs + r.value) else None
  }

  /** None stands for an unterminated phrase. */
  function Parse(q: string, df: string): Option<seq<Clause>>
    decreases |q|
  {
    var s := Drop(q, IsBlank);
    if s == "" then Some([])
    else if IsSign(s[0]) then ParseClause(Drop(s[1..], IsBlank), df, s[0] == '+')
    else ParseClause(s, df, true)
  }

  /** At a clause, behind its sign. */
  function ParseClause(s: string, df: string, must: bool): Option<seq<Clause>>
    requires s != "" ==> !IsBlank(s[0])
    decreases |s|, 0
  {
    if s == "" then Some([])
    else if s[0] == '"' then
      var n := Run(s[1..], NotQuote);
      if n == |s| - 1 then None
      else Prepend([Clause(df, must, true, s[1..n+1])] + Mark(s[n+2..]), Parse(s[n+2..], df))
    else if AtOr(s) then Parse(s[2..], df)
    else
      var n := Run(s, NotBlank);
      Prepend([TokenClause(s[..n], df, must)] + Mark(s[n..]), Parse(s[n..], df))
  }

  lemma {:induction false} PrependTwice(a: seq<Clause>, b: seq<Clause>, r: Option<seq<Clause>>)
    ensures Prepend(a, Prepend(b, r)) == Prepend(a + b, r)
  {
    if r.Some? {
      assert a + (b + r.value) == a + b + r.value;
    }
  }

  // ------------------------------------------------------------------
  // Evaluation
  // ------------------------------------------------------------------

  /** The chain of alternatives at the front of cs, joined to u, and what follows it. */
  function Chain(cs: seq<Clause>, u: set<string>, hits: Clause -> set<string>): (r: (set<string>, seq<Clause>))
    ensures |r.1| <= |cs|
    decreases |cs|
  {
    if |cs| >= 2 && cs[0].text == "OR" then Chain(cs[2..], u + hits(cs[1]), hits) else (u, cs)
  }

  function Eval(cs: seq<Clause>, found: set<string>, hits: Clause -> set<string>): set<string>
    decreases |cs|
  {
    if cs == [] then found
    else if cs[0].text == "OR" then Eval(cs[1..], found, hits)
    else if !cs[0].must then Eval(cs[1..], found - hits(cs[0]), hits)
    else
      var (u, rest) := Chain(cs[1..], hits(cs[0]), hits);
      Eval(rest, found * u, hits)
  }

  // ------------------------------------------------------------------
  // What one clause finds
  // ------------------------------------------------------------------

  predicate NotComma(c: char) { c != ',' }

  predicate IsSpace(c: char) { c == ' ' || '\t' <= c <= '\r' }

  function Split(s: string): seq<string>
    decreases |s|
  {
    var n := Run(s, NotComma);
    if n == |s| then [s] else [s[..n]] + Split(s[n+1..])
  }

  function TrimRight(s: string): string
    decreases |s|
  {
    if s != "" && IsSpace(s[|s|-1]) then TrimRight(s[..|s|-1]) else s
  }

  function TrimSpace(s: string): string { TrimRight(Drop(s, IsSpace)) }

  /** The field names a clause's field stands for. */
  function FieldNames(field: string): set<string> {
    set f | f in Split(field) && TrimSpace(f) != "" :: TrimSpace(f)
  }

  /** The phrase occurs word after word; an empty one never does. */
  predicate Contains(toks: seq<string>, phrase: seq<string>) {
    phrase != [] && exists i :: 0 <= i <= |toks| - |phrase| && OccursAt(toks, phrase, i)
  }

  predicate OccursAt(toks: seq<string>, phrase: seq<string>, i: nat)
    requires i + |phrase| <= |toks|
  {
    toks[i..i+|phrase|] == phrase
  }

  function PhraseHits(st: State, f: string, phrase: seq<string>): set<string> {
    set id | id in st.docs && IndexRuns.DocHasText(st.docs[id], f) && Contains(Words(st.docs[id][f]), phrase)
  }

  function FieldHits(st: State, c: Clause, f: string): set<string> {
    if c.phrase then PhraseHits(st, f, Tokenize(c.text)) else IndexRuns.MatchWords(st, f, c.text)
  }

  function ClauseHits(st: State, c: Clause): set<string> {
    set f, id | f in FieldNames(c.field) && id in FieldHits(st, c, f) :: id
  }

  // ------------------------------------------------------------------
  // Lists of fields, and phrases
  // ------------------------------------------------------------------

  predicate CommaFree(s: string) { forall i :: 0 <= i < |s| ==> s[i] != ',' }

  lemma {:induction false} SplitJoined(parts: seq<string>)
    requires parts != [] && forall p :: p in parts ==> CommaFree(p)
    ensures Split(Join(parts, ",")) == parts
  {
    assert parts[0] in parts;
    if |parts| == 1 {
      RunIs(parts[0], NotComma, |parts[0]|);
    } else {
      var rest := Join(parts[1..], ",");
      SplitJoined(parts[1..]);
      assert Join(parts, ",") == parts[0] + "," + rest;
      SplitOne(parts[0], rest);
    }
  }

  lemma {:induction false} SplitOne(p: string, rest: string)
    requires CommaFree(p)
    ensures Split(p + "," + rest) == [p] + Split(rest)
  {
    var s := p + "," + rest;
    RunIs(s, NotComma, |p|);
    assert s[..|p|] == p && s[|p|+1..] == rest;
  }

  predicate AllSpace(s: string) { forall i :: 0 <= i < |s| ==> IsSpace(s[i]) }

  /** A field name with no blanks around it. */
  predicate Trimmed(f: string) { f != "" && !IsSpace(f[0]) && !IsSpace(f[|f|-1]) }

  lemma {:induction false} TrimPadded(before: string, f: string, after: string)
    requires AllSpace(before) && AllSpace(after) && Trimmed(f)
    ensures TrimSpace(before + f + after) == f
  {
    var s := before + f + after;
    RunIs(s, IsSpace, |before|);
    assert s[|before|..] == f + after;
    TrimRightPadded(f, after);
  }

  lemma {:induction false} TrimRightPadded(f: string, after: string)
    requires AllSpace(after) && Trimmed(f)
    ensures TrimRight(f + after) == f
    decreases |after|
  {
    if after == "" {
      assert f + after == f;
    } else {
      assert (f + after)[..|f + after|-1] == f + after[..|after|-1];
      TrimRightPadded(f, after[..|after|-1]);
    }
  }

  predicate Padded(parts: seq<string>, names: seq<string>) {
    |parts| == |names| && forall i :: 0 <= i < |parts| ==> CommaFree(parts[i]) && TrimSpace(parts[i]) == names[i] != ""
  }

  /** A clause over a list of names, with a comma between any two and blanks around them at will, finds what it finds in
      any of these fields. */
  lemma {:induction false} FieldListFindsAny(st: State, c: Clause, parts: seq<string>, names: seq<string>, id: string)
    requires parts != [] && Padded(parts, names) && c.field == Join(parts, ",")
    ensures id in ClauseHits(st, c) <==> exists n :: n in names && id in FieldHits(st, c, n)
  {
    forall p | p in parts ensures CommaFree(p) {
      var i :| 0 <= i < |parts| && parts[i] == p;
    }
    SplitJoined(parts);
    forall n ensures n in FieldNames(c.field) <==> n in names {
      if n in names {
        var i :| 0 <= i < |names| && names[i] == n;
        assert parts[i] in Split(c.field) && TrimSpace(parts[i]) == n;
      }
      if n in FieldNames(c.field) {
        var p :| p in Split(c.field) && TrimSpace(p) != "" && TrimSpace(p) == n;
        var i :| 0 <= i < |parts| && parts[i] == p;
        assert names[i] == n;
      }
    }
    hide FieldHits, FieldNames, Join, Split, TrimSpace;
  }

  /** A phrase is found in a text field if and only if its words stand there one after the other, and it has any. */
  lemma {:induction false} PhraseFindsExactly(st: State, f: string, text: string, id: string)
    ensures id in PhraseHits(st, f, Tokenize(text)) <==>
            id in st.docs && IndexRuns.DocHasText(st.docs[id], f) && Tokenize(text) != []
            && exists a, b :: Words(st.docs[id][f]) == a + Tokenize(text) + b
  {
    hide Tokenize;
    var phrase := Tokenize(text);
    if id in st.docs && IndexRuns.DocHasText(st.docs[id], f) {
      var toks := Words(st.docs[id][f]);
      hide Words;
      if Contains(toks, phrase) {
        var i :| 0 <= i <= |toks| - |phrase| && OccursAt(toks, phrase, i);
        assert toks == toks[..i] + phrase + toks[i + |phrase|..];
      }
      if a, b :| toks == a + phrase + b && phrase != [] {
        assert toks[|a|..|a| + |phrase|] == phrase;
        assert OccursAt(toks, phrase, |a|);
      }
    }
  }

  // ------------------------------------------------------------------
  // The loops
  // ------------------------------------------------------------------

  lemma {:induction false} DropStep(s: string, i: nat, p: char -> bool)
    requires i < |s| && p(s[i])
    ensures Drop(s[i..], p) == Drop(s[i+1..], p)
  {
    assert s[i..][1..] == s[i+1..];
  }

  method Skip(q: string, i: nat, p: char -> bool) returns (j: nat)
    requires i <= |q|
    ensures i <= j <= |q| && q[j..] == Drop(q[i..], p) && j == i + Run(q[i..], p)
  {
    j := i;
    while j < |q| && p(q[j])
      invariant i <= j <= |q| && Drop(q[j..], p) == Drop(q[i..], p)
      invariant j + Run(q[j..], p) == i + Run(q[i..], p)
    {
      DropStep(q, j, p);
      assert q[j..][1..] == q[j+1..];
      j := j + 1;
    }
    assert Run(q[j..], p) == 0;
  }

  method PeekOrAfter(q: string, j: nat) returns (b: bool)
    requires j <= |q|
    ensures b == PeekOr(q[j..])
  {
    var k := Skip(q, j, SpaceOrTab);
    b := k + 2 <= |q| && q[k] == 'O' && q[k+1] == 'R' && (k + 2 == |q| || q[k+2] == ' ' || q[k+2] == '\t');
  }

  /** Blanks, a sign, and blanks again. */
  method SkipSign(q: string, start: nat, df: string) returns (i: nat, must: bool)
    requires start < |q|
    ensures start <= i <= |q| && (i < |q| ==> !IsBlank(q[i])) && Parse(q[start..], df) == ParseClause(q[i..], df, must)
  {
    hide ParseClause, Run;
    i := Skip(q, start, IsBlank);
    must := true;
    if i >= |q| {
      EmptyClause(q[i..], df, true);
      return;
    }
    ghost var s := q[i..];
    assert s[1..] == q[i+1..];
    if q[i] == '+' {
      i := i + 1;
    } else if q[i] == '-' {
      must := false;
      i := i + 1;
    }
    i := Skip(q, i, IsBlank);
  }

  method ParseQueryString(q: string, df: string) returns (r: Option<seq<Clause>>)
    ensures r == Parse(q, df)
  {
    hide *;
    var out: seq<Clause> := [];
    var i := 0;
    assert q[0..] == q;
    PrependNothing(Parse(q, df));
    while i < |q|
      invariant i <= |q| && Prepend(out, Parse(q[i..], df)) == Parse(q, df)
      decreases |q| - i
    {
      var must;
      i, must := SkipSign(q, i, df);
      if i >= |q| {
        EmptyClause(q[i..], df, must);
        PrependNothing(Some(out));
        return Some(out);
      }
      var keyword := AtKeyword(q, i);
      if q[i] == '"' {
        var next := NextPhrase(q, i, df, must);
        if next.None? {
          PrependNone(out);
          return None;
        }
        out := AndMark(q, out, next.value.0, next.value.1, df);
        i := next.value.1;
      } else if keyword {
        ParseKeyword(q, i, df, must);
        i := i + 2;
      } else {
        var clause, next := NextToken(q, i, df, must);
        out := AndMark(q, out, clause, next, df);
        i := next;
      }
    }
    EmptyText(q[i..], df);
    PrependNothing(Some(out));
    r := Some(out);
  }

  lemma {:induction false} PrependNone(cs: seq<Clause>)
    ensures Prepend(cs, None) == None
  {
  }

  lemma {:induction false} EmptyText(q: string, df: string)
    requires q == ""
    ensures Parse(q, df) == Some([])
  {
  }

  method AtKeyword(q: string, i: nat) returns (b: bool)
    requires i < |q|
    ensures b == AtOr(q[i..])
  {
    b := i + 2 <= |q| && q[i] == 'O' && q[i+1] == 'R' && (i + 2 == |q| || q[i+2] == ' ');
  }

  /** The clause, followed by the marker when the keyword comes next. */
  method AndMark(q: string, out: seq<Clause>, c: Clause, next: nat, df: string) returns (r: seq<Clause>)
    requires next <= |q|
    ensures Prepend(r, Parse(q[next..], df)) == Prepend(out, Prepend([c] + Mark(q[next..]), Parse(q[next..], df)))
  {
    hide Parse, PeekOr;
    var marked := PeekOrAfter(q, next);
    var more := [c] + (if marked then [OR] else []);
    PrependTwice(out, more, Parse(q[next..], df));
    r := out + more;
  }

  lemma {:induction false} EmptyClause(s: string, df: string, must: bool)
    requires s == ""
    ensures ParseClause(s, df, must) == Some([])
  {
  }

  lemma {:induction false} PrependNothing(r: Option<seq<Clause>>)
    ensures Prepend([], r) == r && (r.Some? ==> Prepend(r.value, Some([])) == r)
  {
    if r.Some? {
      assert [] + r.value == r.value && r.value + [] == r.value;
    }
  }

  /** The phrase at i and the index behind it, if it is closed. */
  method NextPhrase(q: string, i: nat, df: string, must: bool) returns (r: Option<(Clause, nat)>)
    requires i < |q| && q[i] == '"'
    ensures r.Some? ==> i < r.value.1 <= |q|
    ensures ParseClause(q[i..], df, must)
         == if r.None? then None else Prepend([r.value.0] + Mark(q[r.value.1..]), Parse(q[r.value.1..], df))
  {
    hide *;
    var j := Skip(q, i + 1, NotQuote);
    PhraseUpTo(q, i, j, df, must);
    if j >= |q| {
      return None;
    }
    r := Some((Clause(df, must, true, q[i+1..j]), j + 1));
  }

  /** The token at i and the index behind it. */
  method NextToken(q: string, i: nat, df: string, must: bool) returns (c: Clause, next: nat)
    requires i < |q| && !IsBlank(q[i]) && q[i] != '"' && !AtOr(q[i..])
    ensures i < next <= |q|
    ensures ParseClause(q[i..], df, must) == Prepend([c] + Mark(q[next..]), Parse(q[next..], df))
  {
    hide *;
    next := Skip(q, i, NotBlank);
    TokenUpTo(q, i, next, df, must);
    c := FieldOrDefault(q[i..next], df, must);
  }

  lemma {:induction false} ParseKeyword(q: string, i: nat, df: string, must: bool)
    requires i < |q| && AtOr(q[i..])
    ensures i + 2 <= |q| && ParseClause(q[i..], df, must) == Parse(q[i+2..], df)
  {
    hide Parse;
    assert q[i..][2..] == q[i+2..];
  }

  method FieldOrDefault(tok: string, df: string, must: bool) returns (c: Clause)
    ensures c == TokenClause(tok, df, must)
  {
    var k := Skip(tok, 0, NotColon);
    assert tok[0..] == tok;
    if 0 < k < |tok| {
      c := Clause(tok[..k], must, false, tok[k+1..]);
    } else {
      c := Clause(df, must, false, tok);
    }
  }

  lemma {:induction false} PhraseUpTo(q: string, i: nat, j: nat, df: string, must: bool)
    requires i < j <= |q| && q[i] == '"' && j == i + 1 + Run(q[i+1..], NotQuote)
    ensures ParseClause(q[i..], df, must)
         == if j >= |q| then None
            else Prepend([Clause(df, must, true, q[i+1..j])] + Mark(q[j+1..]), Parse(q[j+1..], df))
  {
    hide Parse, Mark, Run;
    var s := q[i..];
    assert s[1..] == q[i+1..];
    if j < |q| {
      assert s[j-i+1..] == q[j+1..] && s[1..j-i] == q[i+1..j];
    }
  }

  lemma {:induction false} TokenUpTo(q: string, i: nat, j: nat, df: string, must: bool)
    requires i <= j <= |q| && i < |q| && !IsBlank(q[i]) && q[i] != '"' && !AtOr(q[i..])
    requires j == i + Run(q[i..], NotBlank)
    ensures i < j
    ensures ParseClause(q[i..], df, must)
         == Prepend([TokenClause(q[i..j], df, must)] + Mark(q[j..]), Parse(q[j..], df))
  {
    var s := q[i..];
    assert s[j-i..] == q[j..] && s[..j-i] == q[i..j];
    assert j != i;
    hide Parse, Mark, Run, TokenClause;
  }

  method ContainsPhrase(toks: seq<string>, phrase: seq<string>) returns (b: bool)
    ensures b == Contains(toks, phrase)
  {
    if |phrase| == 0 || |toks| < |phrase| {
      return false;
    }
    var i := 0;
    while i + |phrase| <= |toks|
      invariant i <= |toks| - |phrase| + 1
      invariant forall k :: 0 <= k < i ==> !OccursAt(toks, phrase, k)
    {
      var match_, j := true, 0;
      while j < |phrase|
        invariant j <= |phrase| && match_ && toks[i..i+j] == phrase[..j]
      {
        if toks[i+j] != phrase[j] {
          assert toks[i..i+|phrase|][j] != phrase[j];
          match_ := false;
          break;
        }
        assert toks[i..i+j+1] == toks[i..i+j] + [toks[i+j]] && phrase[..j+1] == phrase[..j] + [phrase[j]];
        j := j + 1;
      }
      if match_ {
        assert phrase[..|phrase|] == phrase && OccursAt(toks, phrase, i);
        return true;
      }
      i := i + 1;
    }
    b := false;
  }

  method PhraseMatchInField(st: State, f: string, phrase: seq<string>) returns (ids: set<string>)
    ensures ids == PhraseHits(st, f, phrase)
  {
    ids := {};
    var todo := st.docs.Keys;
    while todo != {}
      invariant todo <= st.docs.Keys
      invariant ids == PhraseHits(st.(docs := st.docs - todo), f, phrase)
      decreases todo
    {
      var id :| id in todo;
      var doc := st.docs[id];
      if f in doc && doc[f].Text? {
        var b := ContainsPhrase(Tokenize(doc[f].s), phrase);
        if b {
          ids := ids + {id};
        }
      }
      todo := todo - {id};
    }
    assert st.docs - {} == st.docs;
  }

  method EvalQSClause(st: State, c: Clause) returns (ids: set<string>)
    ensures ids == ClauseHits(st, c)
  {
    ids := {};
    var fields := Split(c.field);
    for i := 0 to |fields|
      invariant forall id :: id in ids <==>
        exists k :: 0 <= k < i && TrimSpace(fields[k]) != "" && id in FieldHits(st, c, TrimSpace(fields[k]))
    {
      var f := TrimSpace(fields[i]);
      if f == "" {
        continue;
      }
      var hits;
      if c.phrase {
        hits := PhraseMatchInField(st, f, Tokenize(c.text));
      } else {
        hits := IndexRuns.MatchWords(st, f, c.text);
      }
      ids := ids + hits;
    }
    forall id ensures id in ids <==> id in ClauseHits(st, c) {
      if id in ids {
        var k :| 0 <= k < |fields| && TrimSpace(fields[k]) != "" && id in FieldHits(st, c, TrimSpace(fields[k]));
        assert TrimSpace(fields[k]) in FieldNames(c.field);
      }
    }
  }

  /** The clauses against all documents of an index. */
  method EvalQueryStringClauses(st: State, cs: seq<Clause>) returns (found: set<string>)
    ensures found == Eval(cs, st.docs.Keys, c => ClauseHits(st, c))
  {
    hide ClauseHits;
    ghost var hits := (c: Clause) => ClauseHits(st, c);
    found := st.docs.Keys;
    var i := 0;
    assert cs[0..] == cs;
    while i < |cs|
      invariant i <= |cs| && Eval(cs[i..], found, hits) == Eval(cs, st.docs.Keys, hits)
      decreases |cs| - i
    {
      var c := cs[i];
      assert cs[i..][1..] == cs[i+1..];
      if c.text == "OR" {
        i := i + 1;
        continue;
      }
      var s := EvalQSClause(st, c);
      if !c.must {
        found := found - s;
        i := i + 1;
        continue;
      }
      var union, j := s, i + 1;
      while j < |cs| && cs[j].text == "OR" && j + 1 < |cs|
        invariant i < j <= |cs| && Chain(cs[j..], union, hits) == Chain(cs[i+1..], s, hits)
        decreases |cs| - j
      {
        assert cs[j..][2..] == cs[j+2..];
        var s2 := EvalQSClause(st, cs[j+1]);
        union := union + s2;
        j := j + 2;
      }
      assert Chain(cs[j..], union, hits) == (union, cs[j..]);
      found := found * union;
      i := j;
    }
  }
}
