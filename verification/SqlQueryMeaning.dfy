/** When the text printed for a query, compiled or not, says what the query selects (pkg/sqldsl/sqldsl.go). */
module SqlQueryMeaning {
  import opened Common
  import opened Text
  import opened SqlLexer
  import opened SqlParser
  import opened SqlRender
  import opened SqlDsl
  import opened SqlLexText
  import opened SqlQueryText
  import opened SqlMeaning

  // ------------------------------------------------------------------
  // What is written of a query means what the query means
  // ------------------------------------------------------------------

  /** Nothing that matters goes unprinted: what is silent demands nothing, is no alternative, and nothing is
      excluded. */
  predicate Lossless(q: Query)
    decreases q
  {
    match q
    case InRange(_, bs) => exists b :: b in bs && b.op != OtherKey
    case MatchPhrasePrefix(_, _) => false
    case Bool(filter, must, should, mustNot) =>
      && (forall c :: c in filter ==> Lossless(c)) && (forall c :: c in must ==> Lossless(c))
      && (forall c :: c in should ==> Lossless(c) && !Silent(c)) && mustNot == []
    case _ => true
  }

  predicate AllHold(us: seq<Tree>, d: Doc) { forall i :: 0 <= i < |us| ==> Satisfies(Strip(us[i]), d) }

  predicate SomeHolds(us: seq<Tree>, d: Doc) { exists i :: 0 <= i < |us| && Satisfies(Strip(us[i]), d) }

  predicate AllPlain(us: seq<Tree>) { forall i :: 0 <= i < |us| ==> NoNegation(Strip(us[i])) }

  lemma {:induction false} OneMoreTree(u: Tree, us: seq<Tree>, d: Doc)
    ensures AllHold([u] + us, d) == (Satisfies(Strip(u), d) && AllHold(us, d))
    ensures SomeHolds([u] + us, d) == (Satisfies(Strip(u), d) || SomeHolds(us, d))
    ensures AllPlain([u] + us) == (NoNegation(Strip(u)) && AllPlain(us))
  {
    hide Satisfies, Strip, NoNegation;
    var vs := [u] + us;
    assert forall i :: 0 <= i < |us| ==> vs[i + 1] == us[i];
    if AllHold(vs, d) {
      assert Satisfies(Strip(vs[0]), d);
      forall i | 0 <= i < |us| ensures Satisfies(Strip(us[i]), d) {
        assert Satisfies(Strip(vs[i + 1]), d);
      }
    }
    if AllPlain(vs) {
      assert NoNegation(Strip(vs[0]));
      forall i | 0 <= i < |us| ensures NoNegation(Strip(us[i])) {
        assert NoNegation(Strip(vs[i + 1]));
      }
    }
    if Satisfies(Strip(u), d) {
      assert Satisfies(Strip(vs[0]), d);
    }
    if i :| 0 <= i < |us| && Satisfies(Strip(us[i]), d) {
      assert Satisfies(Strip(vs[i + 1]), d);
    }
  }

  lemma {:induction false} ConcatHolds(us: seq<Tree>, vs: seq<Tree>, d: Doc)
    ensures AllHold(us + vs, d) == (AllHold(us, d) && AllHold(vs, d))
    ensures SomeHolds(us + vs, d) == (SomeHolds(us, d) || SomeHolds(vs, d))
    ensures AllPlain(us + vs) == (AllPlain(us) && AllPlain(vs))
  {
    hide AllHold, SomeHolds, AllPlain;
    if us == [] {
      assert us + vs == vs;
      NoTrees(d);
    } else {
      ConcatHolds(us[1..], vs, d);
      OneMoreTree(us[0], us[1..] + vs, d);
      OneMoreTree(us[0], us[1..], d);
      assert us == [us[0]] + us[1..] && us + vs == [us[0]] + (us[1..] + vs);
    }
  }

  lemma {:induction false} NoTrees(d: Doc)
    ensures AllHold([], d) && !SomeHolds([], d) && AllPlain([])
  {
  }

  lemma {:induction false} ConjunctionMeans(us: seq<Tree>, d: Doc)
    requires us != []
    ensures Satisfies(Strip(Conjunction(us)), d) == AllHold(us, d)
    ensures AllPlain(us) ==> NoNegation(Strip(Conjunction(us)))
  {
    hide AllHold, SomeHolds, AllPlain, NoNegation;
    assert us == [us[0]] + us[1..];
    OneMoreTree(us[0], us[1..], d);
    if |us| > 1 {
      ConjunctionMeans(us[1..], d);
      NodePlain(AndOp, us[0], Conjunction(us[1..]));
    } else {
      NoTrees(d);
    }
  }

  lemma {:induction false} NodePlain(op: Op, l: Tree, r: Tree)
    ensures NoNegation(Strip(l)) && NoNegation(Strip(r)) ==> NoNegation(Strip(Node(op, l, r)))
  {
  }

  lemma {:induction false} DisjunctionMeans(us: seq<Tree>, d: Doc)
    requires us != []
    ensures Satisfies(Strip(Disjunction(us)), d) == SomeHolds(us, d)
    ensures AllPlain(us) ==> NoNegation(Strip(Disjunction(us)))
  {
    hide AllHold, SomeHolds, AllPlain, NoNegation;
    var n := |us| - 1;
    assert us == us[..n] + [us[n]] && [us[n]] == [us[n]] + [];
    ConcatHolds(us[..n], [us[n]], d);
    OneMoreTree(us[n], [], d);
    NoTrees(d);
    if n > 0 {
      DisjunctionMeans(us[..n], d);
      NodePlain(OrOp, Disjunction(us[..n]), us[n]);
    }
  }

  lemma {:induction false} ParensMean(us: seq<Tree>, d: Doc)
    ensures SomeHolds(Parens(us), d) == SomeHolds(us, d) && AllPlain(Parens(us)) == AllPlain(us)
    ensures Parens(us) == [] <==> us == []
  {
    hide SomeHolds, AllPlain, NoNegation;
    if us != [] {
      ParensMean(us[1..], d);
      assert us == [us[0]] + us[1..];
      OneMoreTree(us[0], us[1..], d);
      OneMoreTree(Paren(us[0]), Parens(us[1..]), d);
    }
  }

  lemma {:induction false} BoundsMean(f: string, bs: seq<Bound>, d: Doc)
    ensures f in d ==> AllHold(BoundTrees(f, bs), d) == (forall b :: b in bs ==> SatisfiesBound(d[f], b))
    ensures f !in d ==> (AllHold(BoundTrees(f, bs), d) <==> BoundTrees(f, bs) == [])
    ensures AllPlain(BoundTrees(f, bs))
  {
    if bs == [] {
      NoTrees(d);
    } else {
      var b, us := bs[0], BoundTrees(f, bs[1..]);
      BoundsMean(f, bs[1..], d);
      assert bs == [b] + bs[1..];
      hide AllHold, AllPlain;
      if b.op == OtherKey {
        assert BoundTrees(f, bs) == us;
      } else {
        BoundMeans(f, b, d);
        hide Satisfies, NoNegation, SatisfiesBound;
        OneMoreTree(Atom(Compare(f, RangeSymbol(b.op), b.val)), us, d);
      }
    }
  }

  lemma {:induction false} BoundMeans(f: string, b: Bound, d: Doc)
    requires b.op != OtherKey
    ensures var e := Strip(Atom(Compare(f, RangeSymbol(b.op), b.val)));
      Satisfies(e, d) == (f in d && SatisfiesBound(d[f], b)) && NoNegation(e)
  {
  }

  lemma {:induction false} ListMeans(qs: seq<Query>, d: Doc)
    requires forall c :: c in qs ==> Lossless(c)
    ensures AllHold(SaidAll(qs), d) <==> forall i :: 0 <= i < |qs| ==> Matches(qs[i], d)
    ensures (forall c :: c in qs ==> Said(c).Some?) ==>
      (SomeHolds(SaidAll(qs), d) <==> exists i :: 0 <= i < |qs| && Matches(qs[i], d)) && |SaidAll(qs)| == |qs|
    ensures AllPlain(SaidAll(qs))
    decreases qs
  {
    hide Matches, Satisfies, NoNegation, Said, Lossless;
    if qs == [] {
      NoTrees(d);
    } else {
      var q, rest := qs[0], qs[1..];
      ListMeans(rest, d);
      SaidMeans(q, d);
      hide AllHold, SomeHolds, AllPlain;
      AllOrSome(qs, d);
      assert qs == [q] + rest;
      if Said(q).Some? {
        OneMoreTree(Said(q).value, SaidAll(rest), d);
        assert SaidAll(qs) == [Said(q).value] + SaidAll(rest);
      } else {
        assert SaidAll(qs) == SaidAll(rest);
      }
    }
  }

  lemma {:induction false} AllOrSome(qs: seq<Query>, d: Doc)
    requires qs != []
    ensures (forall i :: 0 <= i < |qs| ==> Matches(qs[i], d)) <==>
            Matches(qs[0], d) && forall i :: 0 <= i < |qs[1..]| ==> Matches(qs[1..][i], d)
    ensures (exists i :: 0 <= i < |qs| && Matches(qs[i], d)) <==>
            Matches(qs[0], d) || exists i :: 0 <= i < |qs[1..]| && Matches(qs[1..][i], d)
  {
    hide Matches;
    var rest := qs[1..];
    assert forall i :: 0 <= i < |rest| ==> rest[i] == qs[i + 1];
    if forall i :: 0 <= i < |qs| ==> Matches(qs[i], d) {
      forall i | 0 <= i < |rest| ensures Matches(rest[i], d) {
        assert Matches(qs[i + 1], d);
      }
    }
    if i :| 0 <= i < |rest| && Matches(rest[i], d) {
      assert Matches(qs[i + 1], d);
    }
    if i :| 0 <= i < |qs| && Matches(qs[i], d) {
      assert i > 0 ==> Matches(rest[i - 1], d);
    }
  }

  /** What is written of a lossless query holds of the documents it selects; if nothing is, it selects all. */
  lemma {:induction false} SaidMeans(q: Query, d: Doc)
    requires Lossless(q)
    ensures Matches(q, d) == (Said(q).Some? ==> Satisfies(Strip(Said(q).value), d))
    ensures Said(q).Some? ==> NoNegation(Strip(Said(q).value))
    decreases q
  {
    match q
    case InRange(f, bs) =>
      BoundsMean(f, bs, d);
      SilentBounds(f, bs);
      ConjunctionMeans(BoundTrees(f, bs), d);
    case Bool(filter, must, should, mustNot) =>
      ListMeans(filter, d);
      ListMeans(must, d);
      ListMeans(should, d);
      LoudIsSaid(should);
      BoolMeans(filter, must, should, d);
    case _ =>
  }

  lemma {:induction false} LoudIsSaid(qs: seq<Query>)
    requires forall c :: c in qs ==> Lossless(c) && !Silent(c)
    ensures forall c :: c in qs ==> Said(c).Some?
    decreases qs, 1
  {
    forall c | c in qs ensures Said(c).Some? {
      SilentIsUnsaid(c);
    }
  }

  lemma {:induction false} BoolMeans(filter: seq<Query>, must: seq<Query>, should: seq<Query>, d: Doc)
    requires AllHold(SaidAll(filter), d) <==> forall i :: 0 <= i < |filter| ==> Matches(filter[i], d)
    requires AllHold(SaidAll(must), d) <==> forall i :: 0 <= i < |must| ==> Matches(must[i], d)
    requires SomeHolds(SaidAll(should), d) <==> exists i :: 0 <= i < |should| && Matches(should[i], d)
    requires |SaidAll(should)| == |should|
    requires AllPlain(SaidAll(filter)) && AllPlain(SaidAll(must)) && AllPlain(SaidAll(should))
    ensures var q := Bool(filter, must, should, []);
      && Matches(q, d) == (Said(q).Some? ==> Satisfies(Strip(Said(q).value), d))
      && (Said(q).Some? ==> NoNegation(Strip(Said(q).value)))
  {
    var a, b, c := SaidAll(filter), SaidAll(must), SaidAll(should);
    var all := a + b + Any(Parens(c));
    BoolSaid(filter, must, should);
    BoolMatches(filter, must, should, d);
    hide Said, SaidAll, Matches, Satisfies, NoNegation, AllHold, SomeHolds, AllPlain, Any, Parens;
    AnyMeans(c, d);
    ConcatHolds(a, b, d);
    ConcatHolds(a + b, Any(Parens(c)), d);
    if all != [] {
      ConjunctionMeans(all, d);
    } else {
      NoTrees(d);
    }
  }

  lemma {:induction false} BoolSaid(filter: seq<Query>, must: seq<Query>, should: seq<Query>)
    ensures Said(Bool(filter, must, should, [])) == All(SaidAll(filter) + SaidAll(must) + Any(Parens(SaidAll(should))))
  {
    var all := SaidAll(filter) + SaidAll(must) + Any(Parens(SaidAll(should)));
    assert all + Nots(SaidAll([])) == all;
  }

  lemma {:induction false} BoolMatches(filter: seq<Query>, must: seq<Query>, should: seq<Query>, d: Doc)
    ensures Matches(Bool(filter, must, should, []), d) <==>
      && (forall i :: 0 <= i < |filter| ==> Matches(filter[i], d))
      && (forall i :: 0 <= i < |must| ==> Matches(must[i], d))
      && (should == [] || exists i :: 0 <= i < |should| && Matches(should[i], d))
  {
  }

  lemma {:induction false} AnyMeans(us: seq<Tree>, d: Doc)
    ensures AllHold(Any(Parens(us)), d) == (us == [] || SomeHolds(us, d))
    ensures AllPlain(us) ==> AllPlain(Any(Parens(us)))
  {
    hide AllHold, SomeHolds, AllPlain, NoNegation, Satisfies;
    NoTrees(d);
    if us != [] {
      ParensMean(us, d);
      var t := Disjunction(Parens(us));
      DisjunctionMeans(Parens(us), d);
      OneMoreTree(t, [], d);
      assert [t] + [] == [t];
    }
  }

  // ------------------------------------------------------------------
  // Alternatives beside other parts
  // ------------------------------------------------------------------

  /** The text has an OR that no parentheses protect: two alternatives, or a part that has one. */
  predicate OpenOr(q: Query)
    decreases q
  {
    q.Bool? && (|q.should| >= 2 || (exists c :: c in q.filter && OpenOr(c)) || exists c :: c in q.must && OpenOr(c))
  }

  /** How many parts of a bool clause are printed side by side. */
  function PartCount(q: Query): nat
    requires q.Bool?
  {
    LoudCount(q.filter) + LoudCount(q.must) + if q.should == [] then 0 else 1
  }

  function LoudCount(qs: seq<Query>): nat {
    if qs == [] then 0 else (if Silent(qs[0]) then 0 else 1) + LoudCount(qs[1..])
  }

  /** Nowhere does a part with such an OR stand beside another part. */
  predicate Apart(q: Query)
    decreases q
  {
    q.Bool? ==>
      && (forall c :: c in q.filter ==> Apart(c)) && (forall c :: c in q.must ==> Apart(c))
      && (forall c :: c in q.should ==> Apart(c))
      && (PartCount(q) >= 2 ==>
            |q.should| < 2 && (forall c :: c in q.filter ==> !OpenOr(c)) && forall c :: c in q.must ==> !OpenOr(c))
  }

  predicate AnyBare(us: seq<Tree>) { exists i :: 0 <= i < |us| && BareOr(us[i]) }

  predicate AllSeparated(us: seq<Tree>) { forall i :: 0 <= i < |us| ==> Separated(us[i]) }

  lemma {:induction false} OneMoreBare(u: Tree, us: seq<Tree>)
    ensures AnyBare([u] + us) == (BareOr(u) || AnyBare(us))
    ensures AllSeparated([u] + us) == (Separated(u) && AllSeparated(us))
  {
    hide BareOr, Separated;
    var vs := [u] + us;
    assert vs[0] == u && forall i :: 0 <= i < |us| ==> vs[i + 1] == us[i];
    if BareOr(u) {
      assert BareOr(vs[0]);
    }
    if i :| 0 <= i < |us| && BareOr(us[i]) {
      assert BareOr(vs[i + 1]);
    }
    if AllSeparated(vs) {
      assert Separated(vs[0]);
      forall i | 0 <= i < |us| ensures Separated(us[i]) {
        assert Separated(vs[i + 1]);
      }
    }
  }

  lemma {:induction false} ConcatBare(us: seq<Tree>, vs: seq<Tree>)
    ensures AnyBare(us + vs) == (AnyBare(us) || AnyBare(vs))
    ensures AllSeparated(us + vs) == (AllSeparated(us) && AllSeparated(vs))
  {
    hide AnyBare, AllSeparated;
    if us == [] {
      assert us + vs == vs;
      NoneBare();
    } else {
      ConcatBare(us[1..], vs);
      OneMoreBare(us[0], us[1..] + vs);
      OneMoreBare(us[0], us[1..]);
      assert us == [us[0]] + us[1..] && us + vs == [us[0]] + (us[1..] + vs);
    }
  }

  lemma {:induction false} NoneBare()
    ensures !AnyBare([]) && AllSeparated([])
  {
  }

  lemma {:induction false} ConjunctionApart(us: seq<Tree>)
    requires us != []
    ensures BareOr(Conjunction(us)) == AnyBare(us)
    ensures Separated(Conjunction(us)) == (AllSeparated(us) && (|us| >= 2 ==> !AnyBare(us)))
  {
    hide AnyBare, AllSeparated;
    assert us == [us[0]] + us[1..];
    OneMoreBare(us[0], us[1..]);
    if |us| > 1 {
      ConjunctionApart(us[1..]);
    } else {
      NoneBare();
    }
  }

  lemma {:induction false} DisjunctionApart(us: seq<Tree>)
    requires us != [] && forall i :: 0 <= i < |us| ==> us[i].Paren?
    ensures BareOr(Disjunction(us)) == (|us| >= 2)
    ensures Separated(Disjunction(us)) == AllSeparated(us)
  {
    hide AllSeparated;
    var n := |us| - 1;
    assert us == us[..n] + [us[n]] && [us[n]] == [us[n]] + [];
    ConcatBare(us[..n], [us[n]]);
    OneMoreBare(us[n], []);
    NoneBare();
    if n > 0 {
      DisjunctionApart(us[..n]);
    }
  }

  lemma {:induction false} ParensApart(us: seq<Tree>)
    ensures AllSeparated(Parens(us)) == AllSeparated(us) && |Parens(us)| == |us|
    ensures forall i :: 0 <= i < |us| ==> Parens(us)[i].Paren?
  {
    if us != [] {
      ParensApart(us[1..]);
      assert us == [us[0]] + us[1..];
      OneMoreBare(us[0], us[1..]);
      OneMoreBare(Paren(us[0]), Parens(us[1..]));
      hide AllSeparated;
    }
  }

  lemma {:induction false} AnyApart(us: seq<Tree>)
    ensures AnyBare(Any(Parens(us))) == (|us| >= 2) && AllSeparated(Any(Parens(us))) == AllSeparated(us)
    ensures |Any(Parens(us))| == if us == [] then 0 else 1
  {
    hide AnyBare, AllSeparated;
    NoneBare();
    if us != [] {
      ParensApart(us);
      var t := Disjunction(Parens(us));
      DisjunctionApart(Parens(us));
      OneMoreBare(t, []);
      assert [t] + [] == [t];
    }
  }

  lemma {:induction false} BoundsApart(f: string, bs: seq<Bound>)
    ensures !AnyBare(BoundTrees(f, bs)) && AllSeparated(BoundTrees(f, bs))
  {
    if bs == [] {
      NoneBare();
    } else {
      BoundsApart(f, bs[1..]);
      OneMoreBare(Atom(Compare(f, RangeSymbol(bs[0].op), bs[0].val)), BoundTrees(f, bs[1..]));
    }
  }

  lemma {:induction false} ListApart(qs: seq<Query>)
    requires forall c :: c in qs ==> Lossless(c)
    ensures AnyBare(SaidAll(qs)) <==> exists c :: c in qs && OpenOr(c)
    ensures AllSeparated(SaidAll(qs)) <==> forall c :: c in qs ==> Apart(c)
    ensures |SaidAll(qs)| == LoudCount(qs)
    decreases qs
  {
    hide Said, Lossless, OpenOr, Apart, AnyBare, AllSeparated, Silent;
    if qs == [] {
      NoneBare();
    } else {
      var q, rest := qs[0], qs[1..];
      QueryApart(q);
      ListApart(rest);
      SilentIsUnsaid(q);
      assert qs == [q] + rest;
      if Said(q).Some? {
        OneMoreBare(Said(q).value, SaidAll(rest));
        assert SaidAll(qs) == [Said(q).value] + SaidAll(rest);
      } else {
        assert SaidAll(qs) == SaidAll(rest);
      }
    }
  }

  lemma {:induction false} QueryApart(q: Query)
    requires Lossless(q)
    ensures Said(q).Some? ==> BareOr(Said(q).value) == OpenOr(q) && Separated(Said(q).value) == Apart(q)
    ensures Said(q).None? ==> !OpenOr(q) && Apart(q)
    decreases q
  {
    match q
    case InRange(f, bs) =>
      BoundsApart(f, bs);
      if BoundTrees(f, bs) != [] {
        ConjunctionApart(BoundTrees(f, bs));
      }
    case Bool(filter, must, should, mustNot) =>
      ListApart(filter);
      ListApart(must);
      ListApart(should);
      ListMeans(should, map[]);
      LoudIsSaid(should);
      BoolApart(filter, must, should);
    case _ =>
  }

  lemma {:induction false} BoolApart(filter: seq<Query>, must: seq<Query>, should: seq<Query>)
    requires |SaidAll(filter)| == LoudCount(filter) && |SaidAll(must)| == LoudCount(must)
    requires |SaidAll(should)| == |should|
    requires AnyBare(SaidAll(filter)) <==> exists c :: c in filter && OpenOr(c)
    requires AnyBare(SaidAll(must)) <==> exists c :: c in must && OpenOr(c)
    requires AllSeparated(SaidAll(filter)) <==> forall c :: c in filter ==> Apart(c)
    requires AllSeparated(SaidAll(must)) <==> forall c :: c in must ==> Apart(c)
    requires AllSeparated(SaidAll(should)) <==> forall c :: c in should ==> Apart(c)
    ensures var q := Bool(filter, must, should, []);
      && (Said(q).Some? ==> BareOr(Said(q).value) == OpenOr(q) && Separated(Said(q).value) == Apart(q))
      && (Said(q).None? ==> !OpenOr(q) && Apart(q))
  {
    var a, b, c := SaidAll(filter), SaidAll(must), SaidAll(should);
    var all := a + b + Any(Parens(c));
    BoolSaid(filter, must, should);
    OpenApartOfBool(filter, must, should);
    hide Said, SaidAll, OpenOr, Apart, BareOr, Separated, AnyBare, AllSeparated, Any, Parens, LoudCount;
    AnyApart(c);
    ConcatBare(a, b);
    ConcatBare(a + b, Any(Parens(c)));
    if all != [] {
      ConjunctionApart(all);
    } else {
      NoneBare();
    }
  }

  lemma {:induction false} OpenApartOfBool(filter: seq<Query>, must: seq<Query>, should: seq<Query>)
    ensures var q := Bool(filter, must, should, []);
      && (OpenOr(q) <==>
          |should| >= 2 || (exists c :: c in filter && OpenOr(c)) || exists c :: c in must && OpenOr(c))
      && (Apart(q) <==>
          && (forall c :: c in filter ==> Apart(c)) && (forall c :: c in must ==> Apart(c))
          && (forall c :: c in should ==> Apart(c))
          && (LoudCount(filter) + LoudCount(must) + (if should == [] then 0 else 1) >= 2 ==> !OpenOr(q)))
  {
  }

  // ------------------------------------------------------------------
  // Main results
  // ------------------------------------------------------------------

  /** For every query that says all it means, without alternatives beside other parts: its text lexes and parses to a
      condition that holds of exactly the documents the query selects. */
  lemma {:induction false} QueryTextMeans(q: Query, d: Doc)
    requires Sayable(q) && Lossless(q) && !Silent(q) && Apart(q)
    ensures var lexed := Lex(QueryToWhere(q), 0);
      && lexed.Ok? && Ends(lexed.value) && Said(q).Some?
      && PExpr(lexed.value, 0) == Ok((ReadQuery(q), [Eof])) && Satisfies(ReadQuery(q), d) == Matches(q, d)
  {
    hide Sayable, Silent, Said, Apart, Matches, Satisfies, PExpr, QueryToWhere, Written, HasNot, Separated, Strip;
    QueryReadsExactlyWhen(q);
    QueryShape(q);
    SaidMeans(q, d);
    QueryApart(q);
    LosslessExcludesNothing(q);
    var t := Said(q).value;
    RegroupedLeaves(t);
    SatisfiesIsEval(Strip(t), d, Holding(Strip(t), d));
    SatisfiesIsEval(Strip(Regrouped(t)), d, Holding(Strip(t), d));
    RegroupingKeepsMeaning(t, Holding(Strip(t), d));
  }

  lemma {:induction false} LosslessExcludesNothing(q: Query)
    requires Lossless(q)
    ensures !Excludes(q)
    decreases q
  {
    if q.Bool? {
      forall c | c in q.filter ensures !Excludes(c) {
        LosslessExcludesNothing(c);
      }
      forall c | c in q.must ensures !Excludes(c) {
        LosslessExcludesNothing(c);
      }
      forall c | c in q.should ensures !Excludes(c) {
        LosslessExcludesNothing(c);
      }
    }
  }

  /** The exact condition: when no two printed conditions speak of the same field and each can be satisfied, the text is
      read as it is meant, of every document, if and only if alternatives stand beside no other part. */
  lemma {:induction false} QueryTextExactlyWhen(q: Query)
    requires Sayable(q) && Lossless(q) && !Silent(q)
    ensures Said(q).Some?
    ensures var e := Strip(Said(q).value);
      DistinctLeaves(e) && DistinctFields(e) && (forall c :: c in Leaves(e) ==> Satisfiable(c)) ==>
        ((forall d :: Satisfies(ReadQuery(q), d) == Matches(q, d)) <==> Apart(q))
  {
    hide Sayable, Silent, Said, Apart, Matches, Satisfies, Written, HasNot, Separated, Strip, Leaves;
    hide Lossless, Satisfiable;
    SilentIsUnsaid(q);
    QueryShape(q);
    QueryApart(q);
    SaidMeans(q, map[]);
    var t := Said(q).value;
    var e := Strip(t);
    RegroupedLeaves(t);
    if DistinctLeaves(e) && DistinctFields(e) && forall c :: c in Leaves(e) ==> Satisfiable(c) {
      if Apart(q) {
        forall d ensures Satisfies(ReadQuery(q), d) == Matches(q, d) {
          QueryTextMeans(q, d);
        }
      } else {
        var holding := RegroupingLosesMeaning(t);
        DocTellsApart(e, ReadQuery(q), holding);
        var d :| Satisfies(ReadQuery(q), d) != Satisfies(e, d);
        SaidMeans(q, d);
      }
    }
  }
}
