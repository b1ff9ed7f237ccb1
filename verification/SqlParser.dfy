/** The SQL parser (pkg/sqldsl/sqldsl.go): a recursive-descent parser with precedence climbing for AND and OR. */
module SqlParser {
  import opened Common
  import opened Text
  import opened SqlLexer

  datatype Literal = StrLit(s: string) | IntLit(n: int) | FloatLit(text: string)

  datatype Cond =
    | Compare(field: string, op: string, val: Literal)
    | In(field: string, vals: seq<Literal>)
    | Like(field: string, prefix: string)

  datatype Op = AndOp | OrOp

  datatype Expr = Leaf(cond: Cond) | Bin(op: Op, left: Expr, right: Expr)

  datatype ParseError =
    | ExpectField
    | ExpectOperator
    | ExpectLiteral
    | BadNumber
    | ExpectPunct(p: char)
    | LikeExpectsString
    | LikeOnlyPrefix
    | ExpectKeyword(w: string)
    | ExpectIndexName
    | ExpectOrderField
    | ExpectCount
    | BadCount
    | ExpectStar
    | ExpectAlias
    | ExpectSelectItem
    | TrailingToken
    | BadText(e: LexError)

  type PResult<T> = Result<(T, seq<Token>), ParseError>

  const MAX_INT64: int := 9223372036854775807

  /** A token list as the tokenizer makes it: the last token is the end marker. */
  predicate Ends(ts: seq<Token>) { ts != [] && ts[|ts|-1] == Eof }

  /** rest is what remains of ts after at least one token was consumed, end marker included. */
  predicate Remains(rest: seq<Token>, ts: seq<Token>) {
    Ends(rest) && |rest| < |ts| && ts[|ts|-|rest|..] == rest
  }

  predicate AllDigits(s: string) { forall i :: 0 <= i < |s| ==> IsDigit(s[i]) }

  /** strconv.Atoi on a number token without a dot: fails beyond 64 bits. */
  function Atoi(text: string): Result<int, ParseError> {
    if text == [] || !AllDigits(text) || NatOf(text) > MAX_INT64 then Err(BadNumber) else Ok(NatOf(text))
  }

  function Dots(s: string): nat {
    if s == [] then 0 else (if s[0] == '.' then 1 else 0) + Dots(s[1..])
  }

  /** A number token with a dot goes to ParseFloat, which accepts a single dot. */
  function NumberValue(text: string): Result<Literal, ParseError> {
    if '.' in text then
      if Dots(text) == 1 then Ok(FloatLit(text)) else Err(BadNumber)
    else
      match Atoi(text)
      case Ok(n) => Ok(IntLit(n))
      case Err(e) => Err(e)
  }

  function LiteralOf(t: Token): Result<Literal, ParseError> {
    match t
    case Str(v) => Ok(StrLit(v))
    case Number(text) => NumberValue(text)
    case _ => Err(ExpectLiteral)
  }

  // ------------------------------------------------------------------
  // The grammar as functions on the remaining tokens
  // ------------------------------------------------------------------

  function PLiteral(ts: seq<Token>): (r: PResult<Literal>)
    requires Ends(ts)
    ensures r.Ok? ==> Remains(r.value.1, ts)
  {
    match LiteralOf(ts[0])
    case Ok(v) => Ok((v, ts[1..]))
    case Err(e) => Err(e)
  }

  function PPunct(ts: seq<Token>, c: char): (r: Result<seq<Token>, ParseError>)
    requires Ends(ts)
    ensures r.Ok? ==> Remains(r.value, ts)
  {
    if ts[0] == Punct(c) then Ok(ts[1..]) else Err(ExpectPunct(c))
  }

  /** One or more literals separated by commas. */
  function PLiterals(ts: seq<Token>): (r: PResult<seq<Literal>>)
    requires Ends(ts)
    ensures r.Ok? ==> Remains(r.value.1, ts)
    decreases |ts|
  {
    match PLiteral(ts)
    case Err(e) => Err(e)
    case Ok((v, rest)) =>
      if rest[0] != Punct(',') then Ok(([v], rest))
      else
        match PLiterals(rest[1..])
        case Err(e) => Err(e)
        case Ok((vs, rest')) => Ok(([v] + vs, rest'))
  }

  /** prefix% with no other wildcard. */
  function PrefixPattern(v: string): Option<string> {
    if v != [] && v[|v|-1] == '%' && '%' !in v[..|v|-1] && '_' !in v[..|v|-1] then Some(v[..|v|-1]) else None
  }

  function PCond(ts: seq<Token>): (r: PResult<Cond>)
    requires Ends(ts)
    ensures r.Ok? ==> Remains(r.value.1, ts)
  {
    if !ts[0].Ident? then Err(ExpectField)
    else
      var field := ts[0].name;
      if ts[1] == Keyword("in") then
        match PPunct(ts[2..], '(')
        case Err(e) => Err(e)
        case Ok(us) =>
          match PLiterals(us)
          case Err(e) => Err(e)
          case Ok((vs, ws)) =>
            match PPunct(ws, ')')
            case Err(e) => Err(e)
            case Ok(rest) => Ok((In(field, vs), rest))
      else if ts[1] == Keyword("like") then
        if !ts[2].Str? then Err(LikeExpectsString)
        else
          match PrefixPattern(ts[2].value)
          case None => Err(LikeOnlyPrefix)
          case Some(p) => Ok((Like(field, p), ts[3..]))
      else if !ts[1].Operator? then Err(ExpectOperator)
      else
        match PLiteral(ts[2..])
        case Err(e) => Err(e)
        case Ok((v, rest)) => Ok((Compare(field, ts[1].op, v), rest))
  }

  function Prio(op: Op): nat { if op == AndOp then 1 else 0 }

  /** The connective a token stands for. */
  function Connective(t: Token): Option<Op> {
    if t == Keyword("and") then Some(AndOp)
    else if t == Keyword("or") then Some(OrOp)
    else None
  }

  function PExpr(ts: seq<Token>, minPrio: nat): (r: PResult<Expr>)
    requires Ends(ts)
    ensures r.Ok? ==> Remains(r.value.1, ts)
    decreases |ts|, 2
  {
    match PPrimary(ts)
    case Err(e) => Err(e)
    case Ok((left, rest)) => PLoop(left, rest, minPrio)
  }

  function PPrimary(ts: seq<Token>): (r: PResult<Expr>)
    requires Ends(ts)
    ensures r.Ok? ==> Remains(r.value.1, ts)
    decreases |ts|, 1
  {
    if ts[0] == Punct('(') then
      match PExpr(ts[1..], 0)
      case Err(e) => Err(e)
      case Ok((e, us)) =>
        match PPunct(us, ')')
        case Err(e) => Err(e)
        case Ok(rest) => Ok((e, rest))
    else
      match PCond(ts)
      case Err(e) => Err(e)
      case Ok((c, rest)) => Ok((Leaf(c), rest))
  }

  /** The loop of parseExpr: extends `left` while the next connective binds at least as tightly as minPrio. */
  function PLoop(left: Expr, ts: seq<Token>, minPrio: nat): (r: PResult<Expr>)
    requires Ends(ts)
    ensures r.Ok? ==> r.value.1 == ts || Remains(r.value.1, ts)
    decreases |ts|, 0
  {
    var op := Connective(ts[0]);
    if op.None? || Prio(op.value) < minPrio then Ok((left, ts))
    else
      match PExpr(ts[1..], Prio(op.value) + 1)
      case Err(e) => Err(e)
      case Ok((right, rest)) => PLoop(Bin(op.value, left, right), rest, minPrio)
  }

  // ------------------------------------------------------------------
  // The parser object
  // ------------------------------------------------------------------

  class Parser {
    const toks: seq<Token>
    var pos: nat

    constructor (toks: seq<Token>)
      requires Ends(toks)
      ensures this.toks == toks && pos == 0
    {
      this.toks := toks;
      pos := 0;
    }

    /** There is a token to read. */
    predicate Ready()
      reads this
    {
      Ends(toks) && pos < |toks|
    }

    function Rest(): (ts: seq<Token>)
      requires Ready()
      reads this
      ensures Ends(ts)
    {
      toks[pos..]
    }

    function Peek(): (t: Token)
      requires Ready()
      reads this
      ensures t == Rest()[0]
    {
      toks[pos]
    }

    /** Consumes a token; only consuming the end marker leaves nothing to read. */
    method Next() returns (t: Token)
      requires Ready()
      modifies this`pos
      ensures pos == old(pos) + 1 && t == old(Peek())
      ensures t != Eof ==> Ready() && Rest() == old(Rest())[1..]
    {
      t := toks[pos];
      pos := pos + 1;
    }

    method ParseLiteral() returns (r: Result<Literal, ParseError>)
      requires Ready()
      modifies this`pos
      ensures r == LiteralOf(old(Peek()))
      ensures r.Ok? ==> Ready() && PLiteral(old(Rest())) == Ok((r.value, Rest()))
    {
      var t := Next();
      r := LiteralOf(t);
    }

    method ExpectPunct(c: char) returns (r: Result<(), ParseError>)
      requires Ready()
      modifies this`pos
      ensures r.Err? ==> PPunct(old(Rest()), c) == Err(r.error)
      ensures r.Ok? ==> Ready() && PPunct(old(Rest()), c) == Ok(Rest())
    {
      if Peek() != Punct(c) {
        return Err(ParseError.ExpectPunct(c));
      }
      var _ := Next();
      r := Ok(());
    }

    /** The outcome agrees with the grammar, and after a success the parser stands where the grammar stops. */
    twostate predicate Agrees<T>(new r: Result<T, ParseError>, new spec: PResult<T>)
      reads this
    {
      match r
      case Err(e) => spec == Err(e)
      case Ok(v) => Ready() && pos > old(pos) && spec == Ok((v, Rest()))
    }

    method ParseLiterals() returns (r: Result<seq<Literal>, ParseError>)
      requires Ready()
      modifies this`pos
      ensures Agrees(r, PLiterals(old(Rest())))
    {
      var vals: seq<Literal> := [];
      ghost var start := Rest();
      PrependLiteralsTwice([], [], PLiterals(start));
      while true
        invariant Ready() && pos >= old(pos)
        invariant PLiterals(start) == PrependLiterals(vals, PLiterals(Rest()))
        decreases |toks| - pos
      {
        ghost var here := Rest();
        var v := ParseLiteral();
        if v.Err? {
          return Err(v.error);
        }
        PrependLiteralsTwice(
          vals, [v.value], if Peek() == Punct(',') then PLiterals(Rest()[1..]) else Ok(([], Rest())));
        vals := vals + [v.value];
        if Peek() != Punct(',') {
          break;
        }
        var _ := Next();
      }
      r := Ok(vals);
    }

    /** parsePrimary without the parenthesised case: a comparison, an IN list or a LIKE pattern. */
    method ParseCond() returns (r: Result<Cond, ParseError>)
      requires Ready()
      modifies this`pos
      ensures Agrees(r, PCond(old(Rest())))
    {
      var t := Next();
      if !t.Ident? {
        return Err(ExpectField);
      }
      var field := t.name;
      if Peek() == Keyword("in") {
        var _ := Next();
        var open := ExpectPunct('(');
        if open.Err? {
          return Err(open.error);
        }
        var vals := ParseLiterals();
        if vals.Err? {
          return Err(vals.error);
        }
        var close := ExpectPunct(')');
        return if close.Err? then Err(close.error) else Ok(In(field, vals.value));
      }
      if Peek() == Keyword("like") {
        var _ := Next();
        var v := Next();
        if !v.Str? {
          return Err(LikeExpectsString);
        }
        var p := PrefixPattern(v.value);
        return if p.None? then Err(LikeOnlyPrefix) else Ok(Like(field, p.value));
      }
      if !Peek().Operator? {
        return Err(ExpectOperator);
      }
      var op := Next();
      var v := ParseLiteral();
      return if v.Err? then Err(v.error) else Ok(Compare(field, op.op, v.value));
    }

    method ParsePrimary() returns (r: Result<Expr, ParseError>)
      requires Ready()
      modifies this`pos
      ensures Agrees(r, PPrimary(old(Rest())))
      decreases |toks| - pos, 1
    {
      if Peek() == Punct('(') {
        var _ := Next();
        var e := ParseExpr(0);
        if e.Err? {
          return e;
        }
        var close := ExpectPunct(')');
        return if close.Err? then Err(close.error) else e;
      }
      var c := ParseCond();
      return if c.Err? then Err(c.error) else Ok(Leaf(c.value));
    }

    method ParseExpr(minPrio: nat) returns (r: Result<Expr, ParseError>)
      requires Ready()
      modifies this`pos
      ensures Agrees(r, PExpr(old(Rest()), minPrio))
      decreases |toks| - pos, 2
    {
      hide PPrimary;
      ghost var spec := PExpr(Rest(), minPrio);
      var first := ParsePrimary();
      if first.Err? {
        return first;
      }
      var left := first.value;
      while true
        invariant Ready() && pos > old(pos)
        invariant spec == PLoop(left, Rest(), minPrio)
        decreases |toks| - pos
      {
        var op := Connective(Peek());
        if op.None? || Prio(op.value) < minPrio {
          break;
        }
        var _ := Next();
        var right := ParseExpr(Prio(op.value) + 1);
        if right.Err? {
          return right;
        }
        left := Bin(op.value, left, right.value);
      }
      r := Ok(left);
    }
  }

  function PrependLiterals(vs: seq<Literal>, r: PResult<seq<Literal>>): PResult<seq<Literal>> {
    match r
    case Ok((ws, rest)) => Ok((vs + ws, rest))
    case Err(e) => Err(e)
  }

  lemma {:induction false} PrependLiteralsTwice(a: seq<Literal>, b: seq<Literal>, r: PResult<seq<Literal>>)
    ensures PrependLiterals(a, PrependLiterals(b, r)) == PrependLiterals(a + b, r)
    ensures PrependLiterals([], r) == r
  {
    if r.Ok? {
      assert a + (b + r.value.0) == a + b + r.value.0;
      assert [] + r.value.0 == r.value.0;
    }
  }
}
