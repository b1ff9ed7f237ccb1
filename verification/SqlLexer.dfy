/** The SQL tokenizer (pkg/sqldsl/sqldsl.go). */
module SqlLexer {
  import opened Common
  import opened Text

  datatype Token =
    | Eof
    | Ident(name: string)
    | Number(text: string)
    | Str(value: string)
    | Keyword(word: string)
    | Operator(op: string)
    | Punct(p: char)

  datatype LexError =
    | UnterminatedString(at: nat)
    | UnterminatedIdent(at: nat)
    | UnexpectedChar(at: nat)

  type LexResult = Result<seq<Token>, LexError>

  const KEYWORDS: set<string> :=
    {"select", "from", "where", "and", "or", "limit", "offset",
     "order", "by", "asc", "desc", "in", "like", "count", "as"}

  predicate IsSpace(c: char) { c == ' ' || c == '\t' || c == '\n' || c == '\r' }

  predicate IsIdentStart(c: char) { IsLowerAlpha(c) || IsUpperAlpha(c) || c == '_' }

  predicate IsIdentPart(c: char) { IsIdentStart(c) || IsDigit(c) || c == '-' || c == '@' }

  predicate IsNumberPart(c: char) { IsDigit(c) || c == '.' }

  predicate IsOperatorChar(c: char) { c == '>' || c == '<' || c == '=' || c == '!' }

  predicate IsPunctChar(c: char) { c == ',' || c == '(' || c == ')' || c == ';' || c == '.' }

  function Word(w: string): Token {
    if Lower(w) in KEYWORDS then Keyword(Lower(w)) else Ident(w)
  }

  /** Reads a string literal after its opening quote: the value and the length up to and including the closing
      quote. A doubled quote stands for one quote. */
  function ScanString(s: string): (r: Option<(string, nat)>)
    ensures r.Some? ==> 1 <= r.value.1 <= |s|
  {
    if s == [] then None
    else if s[0] == '\'' then
      if |s| > 1 && s[1] == '\'' then Extend("'", 2, ScanString(s[2..]))
      else Some(("", 1))
    else Extend([s[0]], 1, ScanString(s[1..]))
  }

  function Extend(v: string, n: nat, r: Option<(string, nat)>): Option<(string, nat)> {
    match r
    case None => None
    case Some((w, k)) => Some((v + w, n + k))
  }

  lemma {:induction false} ExtendTwice(v: string, n: nat, w: string, k: nat, r: Option<(string, nat)>)
    ensures Extend(v, n, Extend(w, k, r)) == Extend(v + w, n + k, r)
    ensures Extend("", 0, r) == r
  {
    if r.Some? {
      assert v + (w + r.value.0) == v + w + r.value.0;
      assert "" + r.value.0 == r.value.0;
    }
  }

  /** What the lexer does with the front of a text: drop n characters, emit a token for n characters, or fail. */
  datatype Step =
    | Skip(n: nat)
    | Emit(token: Token, n: nat)
    | BadString
    | BadIdent
    | BadChar

  function Front(s: string): (st: Step)
    requires s != []
    ensures st.Skip? || st.Emit? ==> 1 <= st.n <= |s|
  {
    var c := s[0];
    if IsSpace(c) then Skip(1)
    else if c == '\'' then
      match ScanString(s[1..])
      case None => BadString
      case Some((v, n)) => Emit(Str(v), 1 + n)
    else if c == '"' then
      var n := Run(s[1..], NotQuote);
      if n == |s| - 1 then BadIdent else Emit(Ident(s[1..1+n]), n + 2)
    else if IsDigit(c) then
      var n := 1 + Run(s[1..], IsNumberPart);
      Emit(Number(s[..n]), n)
    else if IsIdentStart(c) then
      var n := 1 + Run(s[1..], IsIdentPart);
      Emit(Word(s[..n]), n)
    else if IsOperatorChar(c) then
      if |s| > 1 && s[1] == '=' then Emit(Operator(s[..2]), 2) else Emit(Operator([c]), 1)
    else if c == '*' then Emit(Operator("*"), 1)
    else if IsPunctChar(c) then Emit(Punct(c), 1)
    else BadChar
  }

  function Prepend(ts: seq<Token>, r: LexResult): LexResult {
    match r
    case Ok(us) => Ok(ts + us)
    case Err(e) => Err(e)
  }

  /** The tokens of a text that starts at offset `off`; the offset only matters for errors. */
  function Lex(s: string, off: nat): (r: LexResult)
    ensures r.Ok? ==> r.value != [] && r.value[|r.value|-1] == Eof
    decreases |s|
  {
    if s == [] then Ok([Eof])
    else
      match Front(s)
      case Skip(n) => Lex(s[n..], off + n)
      case Emit(t, n) => Prepend([t], Lex(s[n..], off + n))
      case BadString => Err(UnterminatedString(off))
      case BadIdent => Err(UnterminatedIdent(off))
      case BadChar => Err(UnexpectedChar(off))
  }

  // ------------------------------------------------------------------
  // The loops
  // ------------------------------------------------------------------

  /** First position at or after i where p fails. */
  method SkipWhile(s: string, i: nat, p: char -> bool) returns (j: nat)
    requires i <= |s|
    ensures i <= j <= |s| && j == i + Run(s[i..], p)
  {
    j := i;
    while j < |s| && p(s[j])
      invariant i <= j <= |s| && forall k :: i <= k < j ==> p(s[k])
    {
      j := j + 1;
    }
    RunIs(s[i..], p, j - i);
  }

  /** Reads a string literal whose opening quote is at position i. */
  method ReadString(s: string, i: nat) returns (r: Option<(string, nat)>)
    requires i < |s|
    ensures r == ScanString(s[i+1..])
  {
    var j := i + 1;
    var b := "";
    ExtendTwice("", 0, "", 0, ScanString(s[j..]));
    while j < |s|
      invariant i + 1 <= j <= |s|
      invariant Extend(b, j - (i + 1), ScanString(s[j..])) == ScanString(s[i+1..])
    {
      assert s[j..][1..] == s[j+1..];
      if s[j] == '\'' {
        if j + 1 < |s| && s[j+1] == '\'' {
          assert s[j..][2..] == s[j+2..];
          ExtendTwice(b, j - (i + 1), "'", 2, ScanString(s[j+2..]));
          b := b + "'";
          j := j + 2;
          continue;
        }
        assert b + "" == b;
        return Some((b, j - i));
      }
      ExtendTwice(b, j - (i + 1), [s[j]], 1, ScanString(s[j+1..]));
      b := b + [s[j]];
      j := j + 1;
    }
    r := None;
  }

  /** One round of the tokenizer loop at position i. */
  method ReadFront(s: string, i: nat) returns (st: Step)
    requires i < |s|
    ensures st == Front(s[i..])
  {
    var c := s[i];
    assert s[i..][1..] == s[i+1..];
    if IsSpace(c) {
      return Skip(1);
    }
    if c == '\'' {
      var r := ReadString(s, i);
      return if r.None? then BadString else Emit(Str(r.value.0), 1 + r.value.1);
    }
    if c == '"' {
      var j := SkipWhile(s, i + 1, NotQuote);
      assert j < |s| ==> s[i..][1..j-i] == s[i+1..j];
      return if j >= |s| then BadIdent else Emit(Ident(s[i+1..j]), j + 1 - i);
    }
    if IsDigit(c) {
      var j := SkipWhile(s, i + 1, IsNumberPart);
      assert s[i..][..j-i] == s[i..j];
      return Emit(Number(s[i..j]), j - i);
    }
    if IsIdentStart(c) {
      var j := SkipWhile(s, i + 1, IsIdentPart);
      assert s[i..][..j-i] == s[i..j];
      return Emit(Word(s[i..j]), j - i);
    }
    if IsOperatorChar(c) {
      if i + 1 < |s| && s[i+1] == '=' {
        assert s[i..][..2] == s[i..i+2];
        return Emit(Operator(s[i..i+2]), 2);
      }
      return Emit(Operator([c]), 1);
    }
    if c == '*' {
      return Emit(Operator("*"), 1);
    }
    return if IsPunctChar(c) then Emit(Punct(c), 1) else BadChar;
  }

  method Tokenize(s: string) returns (r: LexResult)
    ensures r == Lex(s, 0)
  {
    hide Front;
    var out: seq<Token> := [];
    var i := 0;
    PrependTwice([], [], Lex(s, 0));
    while i < |s|
      invariant i <= |s| && Lex(s, 0) == Prepend(out, Lex(s[i..], i))
      decreases |s| - i
    {
      var st := ReadFront(s, i);
      match st
      case Skip(n) =>
        assert s[i..][n..] == s[i+n..];
        i := i + n;
      case Emit(t, n) =>
        assert s[i..][n..] == s[i+n..];
        PrependTwice(out, [t], Lex(s[i+n..], i + n));
        out := out + [t];
        i := i + n;
      case BadString => return Err(UnterminatedString(i));
      case BadIdent => return Err(UnterminatedIdent(i));
      case BadChar => return Err(UnexpectedChar(i));
    }
    r := Ok(out + [Eof]);
  }

  lemma {:induction false} PrependTwice(a: seq<Token>, b: seq<Token>, r: LexResult)
    ensures Prepend(a, Prepend(b, r)) == Prepend(a + b, r)
    ensures Prepend([], r) == r
  {
    if r.Ok? {
      assert a + (b + r.value) == a + b + r.value;
      assert [] + r.value == r.value;
    }
  }
}
