/** The candidates of the term suggester (internal/search/suggest.go). */
module TermSuggest {
  import opened Collections
  import opened Common
  import opened Text
  import opened InvertedIndex
  import opened EditDistance

  datatype Params = Params(maxEdits: nat, prefixLen: nat, minWordLen: nat)

  /** Values out of range are replaced. */
  function Effective(maxEdits: int, prefixLen: int, minWordLen: int): (p: Params)
    ensures p.maxEdits > 0 && p.prefixLen > 0 && p.minWordLen >= 3
    ensures (maxEdits > 0 ==> p.maxEdits == maxEdits) && (prefixLen > 0 ==> p.prefixLen == prefixLen)
    ensures minWordLen >= 3 ==> p.minWordLen == minWordLen
    ensures maxEdits <= 0 && prefixLen <= 0 && minWordLen < 3 ==> p == Params(2, 1, 3)
  {
    Params(if maxEdits <= 0 then 2 else maxEdits,
           if prefixLen < 1 then 1 else prefixLen,
           if minWordLen < 3 then 3 else minWordLen)
  }

  /** How often a candidate was found, weighted by its documents, and its best score. */
  datatype Candidate = Candidate(freq: nat, score: real)

  function Prefix(p: Params, tok: string): string { if |tok| > p.prefixLen then tok[..p.prefixLen] else tok }

  /** The query word tok is close to the index word t. */
  predicate Close(p: Params, tok: string, t: string) {
    |tok| >= p.minWordLen && Prefix(p, tok) <= t && Dist(tok, t) <= p.maxEdits
  }

  function DF(terms: Terms, t: string): nat { |IdsOf(terms, t)| }

  /** Documents, divided by the distance plus one. */
  function Score(terms: Terms, tok: string, t: string): real { DF(terms, t) as real / (Dist(tok, t) + 1) as real }

  function CloseCount(p: Params, toks: seq<string>, t: string): nat {
    if toks == [] then 0
    else CloseCount(p, toks[..|toks|-1], t) + (if Close(p, toks[|toks|-1], t) then 1 else 0)
  }

  function Best(p: Params, terms: Terms, toks: seq<string>, t: string): real {
    if toks == [] then 0.0
    else
      var prior, tok := Best(p, terms, toks[..|toks|-1], t), toks[|toks|-1];
      if Close(p, tok, t) && prior < Score(terms, tok, t) then Score(terms, tok, t) else prior
  }

  /** Every index word with documents that is close to some query word. */
  function Candidates(p: Params, terms: Terms, toks: seq<string>): map<string, Candidate> {
    map t | t in terms && terms[t] != {} && CloseCount(p, toks, t) > 0 ::
      Candidate(CloseCount(p, toks, t) * DF(terms, t), Best(p, terms, toks, t))
  }

  // ------------------------------------------------------------------
  // What the candidates are
  // ------------------------------------------------------------------

  lemma {:induction false} CloseCountPositive(p: Params, toks: seq<string>, t: string)
    ensures CloseCount(p, toks, t) > 0 <==> exists tok :: tok in toks && Close(p, tok, t)
  {
    if toks != [] {
      var n := |toks| - 1;
      assert toks == toks[..n] + [toks[n]];
      CloseCountPositive(p, toks[..n], t);
    }
  }

  /** The best score is that of the nearest query word. */
  lemma {:induction false} BestIsNearest(p: Params, terms: Terms, toks: seq<string>, t: string)
    requires DF(terms, t) > 0
    ensures forall tok :: tok in toks && Close(p, tok, t) ==> Score(terms, tok, t) <= Best(p, terms, toks, t)
    ensures CloseCount(p, toks, t) > 0 ==>
      exists tok :: tok in toks && Close(p, tok, t) && Best(p, terms, toks, t) == Score(terms, tok, t)
    ensures Best(p, terms, toks, t) >= 0.0
  {
    if toks != [] {
      var n := |toks| - 1;
      var last, prior := toks[n], toks[..n];
      assert toks == prior + [last] && last in toks;
      BestIsNearest(p, terms, prior, t);
      ScorePositive(terms, last, t);
      var before, now := Best(p, terms, prior, t), Best(p, terms, toks, t);
      assert now == if Close(p, last, t) && before < Score(terms, last, t) then Score(terms, last, t) else before;
      assert CloseCount(p, toks, t) == CloseCount(p, prior, t) + (if Close(p, last, t) then 1 else 0);
      NoneClose(p, terms, prior, t);
      hide *;
      if CloseCount(p, toks, t) > 0 && !(Close(p, last, t) && now == Score(terms, last, t)) {
        assert CloseCount(p, prior, t) > 0 && now == before;
        var tok :| tok in prior && Close(p, tok, t) && before == Score(terms, tok, t);
        assert tok in toks;
      }
    }
  }

  lemma {:induction false} ScorePositive(terms: Terms, tok: string, t: string)
    requires DF(terms, t) > 0
    ensures Score(terms, tok, t) > 0.0
  {
  }

  /** A nearer word scores higher, an equally near one the same. */
  lemma {:induction false} ScoreFallsWithDistance(terms: Terms, a: string, b: string, t: string)
    requires DF(terms, t) > 0
    ensures Score(terms, a, t) < Score(terms, b, t) <==> Dist(b, t) < Dist(a, t)
  {
    var df, x, y := DF(terms, t) as real, (Dist(a, t) + 1) as real, (Dist(b, t) + 1) as real;
    Divide(df, x, y);
    Divide(df, y, x);
  }

  lemma {:induction false} Divide(df: real, x: real, y: real)
    requires df > 0.0 && x >= 1.0 && y >= 1.0
    ensures y < x ==> df / x < df / y
    ensures x == y ==> df / x == df / y
  {
    if y < x {
      assert df / y - df / x == df * (x - y) / (x * y) by {
        assert df / y == df * x / (x * y);
        assert df / x == df * y / (x * y);
      }
      assert x * y > 0.0 && df * (x - y) > 0.0;
    }
  }

  /** On every index, the candidates are exactly the words with documents within the edit limit of a query word that
      shares the prefix; each scores by the nearest such word. */
  lemma {:induction false} CandidatesExactly(p: Params, terms: Terms, toks: seq<string>, t: string)
    ensures t in Candidates(p, terms, toks) <==>
            t in terms && terms[t] != {} && exists tok :: tok in toks && Close(p, tok, t)
    ensures t in Candidates(p, terms, toks) ==>
      exists tok :: tok in toks && Close(p, tok, t) && Candidates(p, terms, toks)[t].score == Score(terms, tok, t)
        && forall other :: other in toks && Close(p, other, t) ==> Dist(tok, t) <= Dist(other, t)
  {
    CloseCountPositive(p, toks, t);
    if t in Candidates(p, terms, toks) {
      NonEmpty(terms[t]);
      BestIsNearest(p, terms, toks, t);
      var tok :| tok in toks && Close(p, tok, t) && Best(p, terms, toks, t) == Score(terms, tok, t);
      hide Close, Score, Best;
      forall other | other in toks && Close(p, other, t) ensures Dist(tok, t) <= Dist(other, t) {
        ScoreFallsWithDistance(terms, tok, other, t);
      }
    }
  }

  /** The first n characters of tok, or all if there are fewer, stand at the front of t. */
  predicate SamePrefix(tok: string, t: string, n: nat) {
    forall i :: 0 <= i < |tok| && i < n ==> i < |t| && t[i] == tok[i]
  }

  lemma {:induction false} PrefixExactlyWhen(p: Params, tok: string, t: string)
    ensures Prefix(p, tok) <= t <==> SamePrefix(tok, t, p.prefixLen)
  {
    var pre := Prefix(p, tok);
    assert pre == tok[..|pre|] && forall i :: 0 <= i < |pre| ==> pre[i] == tok[i];
    if SamePrefix(tok, t, p.prefixLen) {
      var last := if pre == "" then ' ' else tok[|pre|-1];
      assert |pre| <= |t|;
      assert forall i :: 0 <= i < |pre| ==> t[i] == pre[i];
    }
    if pre <= t {
      assert forall i :: 0 <= i < |pre| ==> t[i] == pre[i];
    }
  }

  /** A word is close to an index word if and only if it is long enough, shares the prefix with it, and turns into it in
      so many edits at most. */
  lemma {:induction false} CloseExactlyWhen(p: Params, tok: string, t: string)
    ensures Close(p, tok, t) <==>
      && |tok| >= p.minWordLen && SamePrefix(tok, t, p.prefixLen)
      && exists n: nat :: n <= p.maxEdits && Reaches(tok, t, n)
  {
    PrefixExactlyWhen(p, tok, t);
    hide Dist, Reaches, Prefix, SamePrefix;
    DistIsLeastEdits(tok, t);
    if n: nat :| n <= p.maxEdits && Reaches(tok, t, n) {
      assert Dist(tok, t) <= n;
    }
    if Dist(tok, t) <= p.maxEdits {
      assert Reaches(tok, t, Dist(tok, t));
    }
  }

  function Pairs(p: Params, terms: Terms, toks: seq<string>, t: string): set<(int, string)> {
    set i, id | 0 <= i < |toks| && Close(p, toks[i], t) && id in IdsOf(terms, t) :: (i, id)
  }

  lemma {:induction false} PairCount(p: Params, terms: Terms, toks: seq<string>, t: string)
    ensures |Pairs(p, terms, toks, t)| == CloseCount(p, toks, t) * DF(terms, t)
  {
    hide Close, Pairs, IdsOf;
    if toks == [] {
      NoPairs(p, terms, t);
    } else {
      var n := |toks| - 1;
      var ids := if Close(p, toks[n], t) then IdsOf(terms, t) else {};
      PairCount(p, terms, toks[..n], t);
      LastPairs(p, terms, toks, t);
      TaggedSize(n, ids);
      Distribute(CloseCount(p, toks[..n], t), 1, DF(terms, t));
    }
  }

  lemma {:induction false} NoPairs(p: Params, terms: Terms, t: string)
    ensures Pairs(p, terms, [], t) == {}
  {
  }

  /** How often a candidate was found: once for every query word close to it and every document that has it. */
  lemma {:induction false} FrequencyCountsPairs(p: Params, terms: Terms, toks: seq<string>, t: string)
    requires t in Candidates(p, terms, toks)
    ensures Candidates(p, terms, toks)[t].freq == |Pairs(p, terms, toks, t)|
  {
    PairCount(p, terms, toks, t);
    hide CloseCount, DF, Pairs, Best;
  }

  function Tagged(n: int, ids: set<string>): set<(int, string)> { set id | id in ids :: (n, id) }

  lemma {:induction false} LastPairs(p: Params, terms: Terms, toks: seq<string>, t: string)
    requires toks != []
    ensures var n := |toks| - 1;
      var prior, last := Pairs(p, terms, toks[..n], t),
                         Tagged(n, if Close(p, toks[n], t) then IdsOf(terms, t) else {});
      Pairs(p, terms, toks, t) == prior + last && prior !! last
  {
    hide Close;
    var n := |toks| - 1;
    var prior, last := Pairs(p, terms, toks[..n], t), Tagged(n, if Close(p, toks[n], t) then IdsOf(terms, t) else {});
    forall x ensures x in Pairs(p, terms, toks, t) <==> x in prior + last {
      assert x.0 < n ==> 0 <= x.0 ==> toks[..n][x.0] == toks[x.0];
    }
  }

  lemma {:induction false} TaggedSize(n: int, ids: set<string>)
    ensures |Tagged(n, ids)| == |ids|
  {
    if ids != {} {
      var id :| id in ids;
      TaggedSize(n, ids - {id});
      assert Tagged(n, ids) == Tagged(n, ids - {id}) + {(n, id)};
    }
  }

  /** A word itself scores its documents, a word at distance n one part in n + 1 of that. */
  lemma {:induction false} ScoreIsShare(terms: Terms, tok: string, t: string)
    ensures Score(terms, t, t) == DF(terms, t) as real
    ensures Score(terms, tok, t) * (Dist(tok, t) + 1) as real == DF(terms, t) as real
  {
    DistSelf(t);
    hide Dist, DF;
    assert DF(terms, t) as real / 1.0 == DF(terms, t) as real;
  }

  lemma {:induction false} NonEmpty(ids: set<string>)
    ensures |ids| > 0 <==> ids != {}
  {
    if ids != {} {
      var id :| id in ids;
      assert ids == {id} + (ids - {id});
    }
  }

  // ------------------------------------------------------------------
  // The loops
  // ------------------------------------------------------------------

  /** What one query word adds for one index word. */
  function Added(terms: Terms, m: map<string, Candidate>, tok: string, t: string): map<string, Candidate> {
    var df, score := DF(terms, t), Score(terms, tok, t);
    if t in m then m[t := Candidate(m[t].freq + df, if m[t].score < score then score else m[t].score)]
    else m[t := Candidate(df, score)]
  }

  /** One more query word, seen so far by the index words done. */
  ghost predicate HalfWay(p: Params, terms: Terms, toks: seq<string>, tok: string, done: seq<string>,
                          m: map<string, Candidate>) {
    forall t ::
      var all := if t in done then toks + [tok] else toks;
      && (t in m <==> t in Candidates(p, terms, all))
      && (t in m ==> m[t] == Candidates(p, terms, all)[t])
  }

  lemma {:induction false} CandidateSnoc(p: Params, terms: Terms, toks: seq<string>, tok: string, t: string)
    requires t in terms
    ensures var before, after := Candidates(p, terms, toks), Candidates(p, terms, toks + [tok]);
      if Close(p, tok, t) && DF(terms, t) > 0 then t in after && after[t] == Added(terms, before, tok, t)[t]
      else (t in after <==> t in before) && (t in after ==> after[t] == before[t])
  {
    assert (toks + [tok])[..|toks|] == toks;
    NonEmpty(terms[t]);
    if DF(terms, t) > 0 {
      ScorePositive(terms, tok, t);
      BestIsNearest(p, terms, toks, t);
      NoneClose(p, terms, toks, t);
    }
    hide Close, Score;
    Distribute(CloseCount(p, toks, t), 1, DF(terms, t));
  }

  lemma {:induction false} NoneClose(p: Params, terms: Terms, toks: seq<string>, t: string)
    ensures CloseCount(p, toks, t) == 0 ==> Best(p, terms, toks, t) == 0.0
  {
    hide Close, Score;
    if toks != [] {
      NoneClose(p, terms, toks[..|toks|-1], t);
    }
  }

  lemma {:induction false} HalfWayStep(p: Params, terms: Terms, toks: seq<string>, tok: string, done: seq<string>,
                                       t: string, m: map<string, Candidate>)
    requires HalfWay(p, terms, toks, tok, done, m) && t in terms && t !in done
    ensures HalfWay(p, terms, toks, tok, done + [t],
                    if Close(p, tok, t) && DF(terms, t) > 0 then Added(terms, m, tok, t) else m)
  {
    CandidateSnoc(p, terms, toks, tok, t);
    hide Close, Score, Candidates, DF;
    forall u ensures u in done + [t] <==> u in done || u == t {
    }
  }

  lemma {:induction false} AllWay(p: Params, terms: Terms, toks: seq<string>, tok: string, done: seq<string>,
                                  m: map<string, Candidate>)
    requires HalfWay(p, terms, toks, tok, done, m) && Listing(done, terms.Keys)
    ensures m == Candidates(p, terms, toks + [tok])
  {
    forall t ensures t in m <==> t in Candidates(p, terms, toks + [tok])
             ensures t in m ==> m[t] == Candidates(p, terms, toks + [tok])[t] {
      assert t in done <==> t in terms;
    }
  }

  method OneWord(p: Params, terms: Terms, ghost toks: seq<string>, tok: string, m: map<string, Candidate>)
    returns (r: map<string, Candidate>)
    requires m == Candidates(p, terms, toks)
    ensures r == Candidates(p, terms, toks + [tok])
  {
    r := m;
    var order := KeysOf(terms);
    assert HalfWay(p, terms, toks, tok, [], m);
    hide HalfWay, Candidates, Score, Close;
    for i := 0 to |order|
      invariant HalfWay(p, terms, toks, tok, order[..i], r)
    {
      ListedIsMember(order, terms.Keys, i);
      assert order[..i+1] == order[..i] + [order[i]];
      assert order[i] !in order[..i];
      HalfWayStep(p, terms, toks, tok, order[..i], order[i], r);
      var close := IsClose(p, tok, order[i]);
      if close && DF(terms, order[i]) != 0 {
        r := Added(terms, r, tok, order[i]);
      }
    }
    assert order[..|order|] == order;
    AllWay(p, terms, toks, tok, order, r);
  }

  method IsClose(p: Params, tok: string, t: string) returns (b: bool)
    ensures b == Close(p, tok, t)
  {
    if |tok| < p.minWordLen || !(Prefix(p, tok) <= t) {
      return false;
    }
    var d := Levenshtein(tok, t, p.maxEdits + 1);
    b := 0 <= d <= p.maxEdits;
  }

  method CollectCandidates(terms: Terms, toks: seq<string>, maxEdits: int, prefixLen: int, minWordLen: int)
    returns (m: map<string, Candidate>)
    ensures m == Candidates(Effective(maxEdits, prefixLen, minWordLen), terms, toks)
  {
    var p := Effective(maxEdits, prefixLen, minWordLen);
    m := map[];
    for i := 0 to |toks|
      invariant m == Candidates(p, terms, toks[..i])
    {
      m := OneWord(p, terms, toks[..i], toks[i], m);
      assert toks[..i+1] == toks[..i] + [toks[i]];
    }
    assert toks[..|toks|] == toks;
  }

  // ------------------------------------------------------------------
  // The options that are returned
  // ------------------------------------------------------------------

  datatype Suggestion = Suggestion(text: string, freq: nat, score: real)

  /** The default order: by score, and by text among equals. */
  predicate Ranks(a: Suggestion, b: Suggestion) { a.score > b.score || (a.score == b.score && Less(a.text, b.text)) }

  predicate Ranked(ss: seq<Suggestion>) { forall i, j :: 0 <= i < j < |ss| ==> Ranks(ss[i], ss[j]) }

  function SuggestionOf(m: map<string, Candidate>, t: string): Suggestion
    requires t in m
  {
    Suggestion(t, m[t].freq, m[t].score)
  }

  lemma {:induction false} RanksIsOrder(a: Suggestion, b: Suggestion, c: Suggestion)
    ensures Ranks(a, b) && Ranks(b, c) ==> Ranks(a, c)
    ensures a.text != b.text ==> Ranks(a, b) || Ranks(b, a)
  {
    if Ranks(a, b) && Ranks(b, c) && a.score == c.score {
      LessTransitive(a.text, b.text, c.text);
    }
    LessTotal(a.text, b.text);
  }

  /** Insertion stands for the library sort. */
  method InsertRanked(ss: seq<Suggestion>, s: Suggestion) returns (r: seq<Suggestion>)
    requires Ranked(ss) && forall x :: x in ss ==> x.text != s.text
    ensures Ranked(r) && |r| == |ss| + 1 && forall x :: x in r <==> x in ss || x == s
  {
    var i := 0;
    while i < |ss| && Ranks(ss[i], s)
      invariant i <= |ss| && forall k :: 0 <= k < i ==> Ranks(ss[k], s)
    {
      i := i + 1;
    }
    forall k | i <= k < |ss| ensures Ranks(s, ss[k]) {
      assert ss[i] in ss;
      RanksIsOrder(s, ss[i], ss[k]);
    }
    hide Ranks;
    r := ss[..i] + [s] + ss[i..];
    assert ss == ss[..i] + ss[i..];
  }

  method RankOptions(m: map<string, Candidate>) returns (all: seq<Suggestion>)
    ensures Ranked(all) && |all| == |m| && forall x :: x in all <==> x.text in m && x == SuggestionOf(m, x.text)
  {
    all := [];
    var order := KeysOf(m);
    for i := 0 to |order|
      invariant Ranked(all) && |all| == i
      invariant forall x :: x in all <==> x.text in order[..i] && x.text in m && x == SuggestionOf(m, x.text)
    {
      ListedIsMember(order, m.Keys, i);
      assert order[..i+1] == order[..i] + [order[i]];
      assert order[i] !in order[..i];
      all := InsertRanked(all, SuggestionOf(m, order[i]));
    }
    assert order[..|order|] == order;
    ListingSize(order, m.Keys);
    assert |m.Keys| == |m|;
  }

  const DEFAULT_SIZE: nat := 5

  function SizeOf(size: int): nat { if size <= 0 then DEFAULT_SIZE else size }

  function Least(a: nat, b: nat): nat { if a < b then a else b }

  /** The best options in rank order: candidates that are left out rank below every one that is returned. */
  method BestOptions(m: map<string, Candidate>, size: int) returns (out: seq<Suggestion>)
    ensures Ranked(out) && |out| == Least(SizeOf(size), |m|)
    ensures forall x :: x in out ==> x.text in m && x == SuggestionOf(m, x.text)
    ensures forall x, t :: x in out && t in m && SuggestionOf(m, t) !in out ==> Ranks(x, SuggestionOf(m, t))
  {
    var all := RankOptions(m);
    out := if |all| > SizeOf(size) then all[..SizeOf(size)] else all;
    assert out == all[..|out|];
    hide Ranks;
    forall x, t | x in out && t in m && SuggestionOf(m, t) !in out ensures Ranks(x, SuggestionOf(m, t)) {
      CutRanksBelow(all, |out|, x, SuggestionOf(m, t));
    }
  }

  lemma {:induction false} CutRanksBelow(all: seq<Suggestion>, n: nat, x: Suggestion, y: Suggestion)
    requires Ranked(all) && n <= |all| && x in all[..n] && y in all && y !in all[..n]
    ensures Ranks(x, y)
  {
    hide Ranks;
    var i :| 0 <= i < n && all[..n][i] == x;
    var j :| 0 <= j < |all| && all[j] == y;
    assert forall k :: 0 <= k < n ==> all[..n][k] == all[k] && all[k] in all[..n];
    assert all[i] == x && j >= n;
  }

  /** The suggester with its default order: the highest scores first, by text among equals, and no candidate left out
      that scores higher than one returned, or as high with the smaller text. */
  method Suggest(terms: Terms, toks: seq<string>, maxEdits: int, prefixLen: int, minWordLen: int, size: int)
    returns (out: seq<Suggestion>)
    ensures var m := Candidates(Effective(maxEdits, prefixLen, minWordLen), terms, toks);
      && |out| == Least(SizeOf(size), |m|)
      && (forall x :: x in out ==> x.text in m && x == SuggestionOf(m, x.text))
      && (forall x, t :: x in out && t in m && SuggestionOf(m, t) !in out ==>
            x.score >= m[t].score && (x.score == m[t].score ==> Less(x.text, t)))
    ensures forall i, j :: 0 <= i < j < |out| ==>
      out[i].score >= out[j].score && (out[i].score == out[j].score ==> Less(out[i].text, out[j].text))
  {
    hide Candidates;
    var m := CollectCandidates(terms, toks, maxEdits, prefixLen, minWordLen);
    out := BestOptions(m, size);
    forall i, j | 0 <= i < j < |out|
      ensures out[i].score >= out[j].score && (out[i].score == out[j].score ==> Less(out[i].text, out[j].text))
    {
      assert Ranks(out[i], out[j]);
    }
    forall x, t | x in out && t in m && SuggestionOf(m, t) !in out
      ensures x.score >= m[t].score && (x.score == m[t].score ==> Less(x.text, t))
    {
      assert Ranks(x, SuggestionOf(m, t));
    }
  }
}
