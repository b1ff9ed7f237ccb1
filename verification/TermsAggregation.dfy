/** The terms aggregation: counting, ranking, truncation and the hits handed to sub-aggregations
    (internal/search/aggregator.go). */
module TermsAggregation {
  import opened Collections
  import opened Common
  import opened Text

  datatype Hit = Hit(index: string, id: string)

  /** The rendered field value of a hit, if its document has the field. */
  type ValueOf = Hit -> Option<string>

  datatype Bucket = Bucket(key: string, count: nat)

  /** The size as the request decoder delivers it. */
  datatype Size = Absent | Float(n: int) | Int(n: int) | JsonNumber(n: int)

  const DEFAULT_SIZE: nat := 10

  /** Numbers decoded as JSON numbers are not looked at, nor are sizes that are not positive. */
  function SizeOf(s: Size): (n: nat)
    ensures n > 0
  {
    if (s.Float? || s.Int?) && s.n > 0 then s.n else DEFAULT_SIZE
  }

  function Least(a: int, b: int): int { if a < b then a else b }

  // ------------------------------------------------------------------
  // Counting
  // ------------------------------------------------------------------

  /** The hits with this value, in order. */
  function Having(hits: seq<Hit>, value: ValueOf, k: string): (r: seq<Hit>)
    ensures forall h :: h in r ==> h in hits && value(h) == Some(k)
  {
    if hits == [] then []
    else
      var n := |hits| - 1;
      var prior := Having(hits[..n], value, k);
      assert hits == hits[..n] + [hits[n]];
      if value(hits[n]) == Some(k) then prior + [hits[n]] else prior
  }

  function HavingField(hits: seq<Hit>, value: ValueOf): seq<Hit> {
    if hits == [] then []
    else
      var n := |hits| - 1;
      HavingField(hits[..n], value) + (if value(hits[n]).Some? then [hits[n]] else [])
  }

  function Values(hits: seq<Hit>, value: ValueOf): set<string> { set h | h in hits && value(h).Some? :: value(h).value }

  /** Each value that occurs, with its number of hits. */
  function Counts(hits: seq<Hit>, value: ValueOf): map<string, nat> {
    map k | k in Values(hits, value) :: |Having(hits, value, k)|
  }

  lemma {:induction false} ValuesSnoc(hits: seq<Hit>, h: Hit, value: ValueOf)
    ensures Values(hits + [h], value) == Values(hits, value) + (if value(h).Some? then {value(h).value} else {})
  {
    assert forall x :: x in hits + [h] <==> x in hits || x == h;
  }

  lemma {:induction false} HavingSnoc(hits: seq<Hit>, h: Hit, value: ValueOf, k: string)
    ensures Having(hits + [h], value, k) == Having(hits, value, k) + (if value(h) == Some(k) then [h] else [])
  {
    assert (hits + [h])[..|hits|] == hits;
  }

  lemma {:induction false} HavingNone(hits: seq<Hit>, value: ValueOf, k: string)
    ensures Having(hits, value, k) == [] <==> k !in Values(hits, value)
  {
    if hits != [] {
      var n := |hits| - 1;
      assert hits == hits[..n] + [hits[n]];
      HavingNone(hits[..n], value, k);
      ValuesSnoc(hits[..n], hits[n], value);
    }
  }

  lemma {:induction false} CountsSnoc(hits: seq<Hit>, h: Hit, value: ValueOf)
    ensures Counts(hits + [h], value)
         == if value(h).None? then Counts(hits, value)
            else
              var k, m := value(h).value, Counts(hits, value);
              m[k := (if k in m then m[k] else 0) + 1]
  {
    var m, m' := Counts(hits, value), Counts(hits + [h], value);
    hide Counts, Having;
    forall k
      ensures CountOf(m', k) == CountOf(m, k) + (if value(h) == Some(k) then 1 else 0)
      ensures (k in m' <==> CountOf(m', k) > 0) && (k in m <==> CountOf(m, k) > 0)
    {
      HavingSnoc(hits, h, value, k);
      CountAt(hits, value, k);
      CountAt(hits + [h], value, k);
    }
  }

  lemma {:induction false} CountAt(hits: seq<Hit>, value: ValueOf, k: string)
    ensures CountOf(Counts(hits, value), k) == |Having(hits, value, k)|
    ensures k in Counts(hits, value) <==> CountOf(Counts(hits, value), k) > 0
  {
    HavingNone(hits, value, k);
  }

  function CountOf(m: map<string, nat>, k: string): nat { if k in m then m[k] else 0 }

  /** Every hit that has the field is counted under exactly one value. */
  lemma {:induction false} CountsCoverHits(hits: seq<Hit>, value: ValueOf)
    ensures SumOfMap(Counts(hits, value)) == |HavingField(hits, value)|
  {
    if hits == [] {
      assert Counts(hits, value) == map[];
    } else {
      var n := |hits| - 1;
      assert hits == hits[..n] + [hits[n]];
      CountsCoverHits(hits[..n], value);
      CountsSnoc(hits[..n], hits[n], value);
      hide Counts;
      if value(hits[n]).Some? {
        var k, m := value(hits[n]).value, Counts(hits[..n], value);
        SumOfMapUpdated(m, k, (if k in m then m[k] else 0) + 1);
      }
    }
  }

  // ------------------------------------------------------------------
  // Ranking
  // ------------------------------------------------------------------

  /** More hits first, then by key. */
  predicate Ranks(a: Bucket, b: Bucket) { a.count > b.count || (a.count == b.count && Less(a.key, b.key)) }

  predicate Ranked(bs: seq<Bucket>) { forall i, j :: 0 <= i < j < |bs| ==> Ranks(bs[i], bs[j]) }

  lemma {:induction false} RanksIsOrder(a: Bucket, b: Bucket, c: Bucket)
    ensures !Ranks(a, a)
    ensures a.key != b.key ==> Ranks(a, b) || Ranks(b, a)
    ensures Ranks(a, b) && Ranks(b, c) ==> Ranks(a, c)
  {
    LessIrreflexive(a.key);
    LessTotal(a.key, b.key);
    if Less(a.key, b.key) && Less(b.key, c.key) {
      LessTransitive(a.key, b.key, c.key);
    }
  }

  /** The buckets of the keys, best first. */
  ghost predicate IsRanking(bs: seq<Bucket>, counts: map<string, nat>) {
    Ranked(bs) && forall b :: b in bs <==> b.key in counts && b.count == counts[b.key]
  }

  method InsertRanked(bs: seq<Bucket>, b: Bucket) returns (r: seq<Bucket>)
    requires Ranked(bs) && forall x :: x in bs ==> x.key != b.key
    ensures Ranked(r) && forall x :: x in r <==> x in bs || x == b
  {
    var i := 0;
    while i < |bs| && (bs[i].count > b.count || (bs[i].count == b.count && Less(bs[i].key, b.key)))
      invariant i <= |bs| && forall k :: 0 <= k < i ==> Ranks(bs[k], b)
    {
      i := i + 1;
    }
    forall k | i <= k < |bs| ensures Ranks(b, bs[k]) {
      assert bs[i] in bs;
      RanksIsOrder(bs[i], b, b);
      RanksIsOrder(b, bs[i], bs[k]);
    }
    hide Ranks;
    r := bs[..i] + [b] + bs[i..];
    assert bs == bs[..i] + bs[i..];
  }

  method RankBuckets(counts: map<string, nat>) returns (bs: seq<Bucket>)
    ensures IsRanking(bs, counts)
  {
    bs := [];
    var order := KeysOf(counts);
    ghost var done: map<string, nat> := map[];
    for i := 0 to |order|
      invariant IsRanking(bs, done)
      invariant forall k :: k in done <==> k in order[..i]
      invariant forall k :: k in done ==> k in counts && done[k] == counts[k]
    {
      assert order[..i+1] == order[..i] + [order[i]];
      ListedIsMember(order, counts.Keys, i);
      var k := order[i];
      assert k !in done;
      var more := InsertRanked(bs, Bucket(k, counts[k]));
      RankingGrows(bs, done, k, counts[k], more);
      bs, done := more, done[k := counts[k]];
    }
    assert order[..|order|] == order && done == counts;
  }

  lemma {:induction false} RankingGrows(bs: seq<Bucket>, done: map<string, nat>, k: string, c: nat, more: seq<Bucket>)
    requires IsRanking(bs, done) && k !in done
    requires Ranked(more) && forall x :: x in more <==> x in bs || x == Bucket(k, c)
    ensures IsRanking(more, done[k := c])
  {
  }

  // ------------------------------------------------------------------
  // The aggregation
  // ------------------------------------------------------------------

  datatype Terms = Terms(buckets: seq<Bucket>, other: nat)

  function Keys(bs: seq<Bucket>): set<string> { set b | b in bs :: b.key }

  /** The best size buckets, and the hits of all others. */
  ghost predicate IsTerms(r: Terms, counts: map<string, nat>, size: nat) {
    && (exists all :: IsRanking(all, counts) && r.buckets == if size < |all| then all[..size] else all)
    && r.other == SumOfMap(counts - Keys(r.buckets))
  }

  lemma {:induction false} RankedKeysDiffer(bs: seq<Bucket>, counts: map<string, nat>)
    requires IsRanking(bs, counts)
    ensures forall i, j :: 0 <= i < j < |bs| ==> bs[i].key != bs[j].key
  {
    forall i, j | 0 <= i < j < |bs| ensures bs[i].key != bs[j].key {
      assert bs[i] in bs && bs[j] in bs && Ranks(bs[i], bs[j]);
      RanksIsOrder(bs[i], bs[j], bs[j]);
    }
  }

  lemma {:induction false} RankingSize(bs: seq<Bucket>, counts: map<string, nat>)
    requires IsRanking(bs, counts)
    ensures |bs| == |counts| && (forall i, j :: 0 <= i < j < |bs| ==> bs[i].key != bs[j].key) && Keys(bs) == counts.Keys
  {
    RankedKeysDiffer(bs, counts);
    hide Ranked;
    var ks := seq(|bs|, i requires 0 <= i < |bs| => bs[i].key);
    forall k ensures k in Keys(bs) <==> k in counts {
      if k in counts {
        assert Bucket(k, counts[k]) in bs;
      }
    }
    forall k ensures k in ks <==> k in Keys(bs) {
      if b :| b in bs && b.key == k {
        var i :| 0 <= i < |bs| && bs[i] == b;
        assert ks[i] == k;
      }
      if k in ks {
        var i :| 0 <= i < |ks| && ks[i] == k;
        assert bs[i] in bs;
      }
    }
    hide Keys, IsRanking;
    ListingSize(ks, counts.Keys);
  }

  /** What is not kept lies behind what is. */
  lemma {:induction false} DroppedRanksBelow(all: seq<Bucket>, n: nat, b: Bucket, d: Bucket)
    requires Ranked(all) && n <= |all| && b in all[..n] && d in all && d !in all[..n]
    ensures Ranks(b, d)
  {
    hide Ranks;
    var i :| 0 <= i < n && all[..n][i] == b;
    var j :| 0 <= j < |all| && all[j] == d;
    assert forall x :: 0 <= x < n ==> all[..n][x] == all[x] && all[x] in all[..n];
    assert all[i] == b && j >= n;
  }

  /** Every kept bucket has its exact count, no dropped value ranks above a kept one, and as many are kept as the size
      in use or as there are. */
  lemma {:induction false} KeptRankAboveDropped(r: Terms, counts: map<string, nat>, size: Size)
    requires IsTerms(r, counts, SizeOf(size))
    ensures Ranked(r.buckets) && |r.buckets| == Least(SizeOf(size), |counts|)
    ensures forall b :: b in r.buckets ==> b.key in counts && b.count == counts[b.key]
    ensures forall b, k :: b in r.buckets && k in counts && k !in Keys(r.buckets) ==> Ranks(b, Bucket(k, counts[k]))
  {
    var n := SizeOf(size);
    var all :| IsRanking(all, counts) && r.buckets == if n < |all| then all[..n] else all;
    RankingSize(all, counts);
    var m := Least(n, |all|);
    assert r.buckets == all[..m] by {
      assert all[..|all|] == all;
    }
    hide Ranks;
    forall b, k | b in r.buckets && k in counts && k !in Keys(r.buckets) ensures Ranks(b, Bucket(k, counts[k])) {
      var d := Bucket(k, counts[k]);
      assert d in all && (d in all[..m] ==> d.key in Keys(r.buckets));
      DroppedRanksBelow(all, m, b, d);
    }
  }

  /** In the buckets' own counts: they come with the most hits first and by key among equals; no value that is dropped
      has more hits than a kept one, and none with as many has the smaller key. */
  lemma {:induction false} MostHitsAreKept(r: Terms, counts: map<string, nat>, size: Size)
    requires IsTerms(r, counts, SizeOf(size))
    ensures forall i, j :: 0 <= i < j < |r.buckets| ==>
              var a, b := r.buckets[i], r.buckets[j]; a.count >= b.count && (a.count == b.count ==> Less(a.key, b.key))
    ensures forall b, k :: b in r.buckets && k in counts && k !in Keys(r.buckets) ==>
              b.count >= counts[k] && (b.count == counts[k] ==> Less(b.key, k))
  {
    KeptRankAboveDropped(r, counts, size);
    forall b, k | b in r.buckets && k in counts && k !in Keys(r.buckets)
      ensures b.count >= counts[k] && (b.count == counts[k] ==> Less(b.key, k))
    {
      assert Ranks(b, Bucket(k, counts[k]));
    }
    assert forall i, j :: 0 <= i < j < |r.buckets| ==> Ranks(r.buckets[i], r.buckets[j]);
  }

  /** As many buckets are kept as the request asks for, or as there are, if and only if its size is looked at, or is the
      default, or neither matters because there are no more buckets than both. */
  lemma {:induction false} SizeAsAskedExactlyWhen(r: Terms, counts: map<string, nat>, size: Size)
    requires IsTerms(r, counts, SizeOf(size)) && !size.Absent? && size.n >= 0
    ensures |r.buckets| == Least(size.n, |counts|) <==>
            ((size.Float? || size.Int?) && size.n > 0) || size.n == DEFAULT_SIZE
            || |counts| <= Least(size.n, DEFAULT_SIZE)
  {
    KeptRankAboveDropped(r, counts, size);
  }

  function SumOfBuckets(bs: seq<Bucket>): nat {
    if bs == [] then 0 else SumOfBuckets(bs[..|bs|-1]) + bs[|bs|-1].count
  }

  lemma {:induction false} KeptAndOther(bs: seq<Bucket>, counts: map<string, nat>)
    requires forall i, j :: 0 <= i < j < |bs| ==> bs[i].key != bs[j].key
    requires forall b :: b in bs ==> b.key in counts && b.count == counts[b.key]
    ensures SumOfBuckets(bs) + SumOfMap(counts - Keys(bs)) == SumOfMap(counts)
  {
    if bs == [] {
      assert counts - Keys(bs) == counts;
    } else {
      var n := |bs| - 1;
      var prior, b := bs[..n], bs[n];
      assert bs == prior + [b] && b in bs;
      KeptAndOther(prior, counts);
      assert Keys(bs) == Keys(prior) + {b.key};
      assert b.key !in Keys(prior);
      var left := counts - Keys(prior);
      SumOfMapWithout(left, b.key);
      assert left - {b.key} == counts - Keys(bs);
    }
  }

  /** The counts of the kept buckets and sum_other_doc_count add up to the number of hits that have the field. */
  lemma {:induction false} NoHitIsLost(r: Terms, hits: seq<Hit>, value: ValueOf, size: Size)
    requires IsTerms(r, Counts(hits, value), SizeOf(size))
    ensures SumOfBuckets(r.buckets) + r.other == |HavingField(hits, value)|
  {
    var counts := Counts(hits, value);
    CountsCoverHits(hits, value);
    hide Counts;
    var all :| IsRanking(all, counts) && r.buckets == if SizeOf(size) < |all| then all[..SizeOf(size)] else all;
    RankingSize(all, counts);
    hide SumOfMap, SumOfBuckets, Keys;
    KeptAndOther(r.buckets, counts);
  }

  method CountHits(hits: seq<Hit>, value: ValueOf) returns (counts: map<string, nat>)
    ensures counts == Counts(hits, value)
  {
    counts := map[];
    assert Values([], value) == {};
    for i := 0 to |hits|
      invariant counts == Counts(hits[..i], value)
    {
      CountsSnoc(hits[..i], hits[i], value);
      assert hits[..i+1] == hits[..i] + [hits[i]];
      hide Counts;
      var v := value(hits[i]);
      if v.None? {
        continue;
      }
      counts := counts[v.value := (if v.value in counts then counts[v.value] else 0) + 1];
    }
    assert hits[..|hits|] == hits;
  }

  method OtherCount(counts: map<string, nat>, kept: set<string>) returns (other: nat)
    ensures other == SumOfMap(counts - kept)
  {
    other := 0;
    var order := KeysOf(counts);
    ghost var left := counts - kept;
    for i := 0 to |order|
      invariant left == counts - kept - (set k | k in order[..i])
      invariant other + SumOfMap(left) == SumOfMap(counts - kept)
    {
      assert order[..i+1] == order[..i] + [order[i]];
      assert order[i] !in order[..i];
      if order[i] !in kept {
        assert order[i] in order && order[i] in left;
        SumOfMapWithout(left, order[i]);
        other := other + counts[order[i]];
        left := left - {order[i]};
      }
    }
    assert order[..|order|] == order;
    assert left == map[];
  }

  method EvalTerms(hits: seq<Hit>, value: ValueOf, size: Size) returns (r: Terms)
    ensures IsTerms(r, Counts(hits, value), SizeOf(size))
  {
    var n := SizeOf(size);
    var counts := CountHits(hits, value);
    hide Counts, SumOfMap;
    var pairs := RankBuckets(counts);
    RankingSize(pairs, counts);
    var kept := if n < |pairs| then pairs[..n] else pairs;
    var other := 0;
    if n < |pairs| {
      other := OtherCount(counts, set b | b in kept :: b.key);
    } else {
      assert counts - Keys(kept) == map[];
      SumOfNone();
    }
    r := Terms(kept, other);
  }

  lemma {:induction false} SumOfNone()
    ensures SumOfMap(map[]) == 0
  {
  }

  // ------------------------------------------------------------------
  // Sub-aggregations
  // ------------------------------------------------------------------

  /** The hits each bucket hands to its sub-aggregations. */
  method SubsetsForBuckets(hits: seq<Hit>, value: ValueOf, buckets: seq<Bucket>) returns (subsets: seq<seq<Hit>>)
    ensures |subsets| == |buckets|
    ensures forall b :: 0 <= b < |buckets| ==> subsets[b] == Having(hits, value, buckets[b].key)
  {
    subsets := [];
    for b := 0 to |buckets|
      invariant |subsets| == b
      invariant forall c :: 0 <= c < b ==> subsets[c] == Having(hits, value, buckets[c].key)
    {
      var subset: seq<Hit> := [];
      for i := 0 to |hits|
        invariant subset == Having(hits[..i], value, buckets[b].key)
      {
        HavingSnoc(hits[..i], hits[i], value, buckets[b].key);
        assert hits[..i+1] == hits[..i] + [hits[i]];
        if value(hits[i]) == Some(buckets[b].key) {
          subset := subset + [hits[i]];
        }
      }
      assert hits[..|hits|] == hits;
      subsets := subsets + [subset];
    }
  }

  /** Each kept bucket hands exactly as many hits to its sub-aggregations as it counts, all of them with its value, and
      no two buckets share one. */
  lemma {:induction false} SubsetsMatchCounts(r: Terms, hits: seq<Hit>, value: ValueOf, size: Size)
    requires IsTerms(r, Counts(hits, value), SizeOf(size))
    ensures forall b :: b in r.buckets ==> |Having(hits, value, b.key)| == b.count > 0
    ensures forall b, c, h ::
      b in r.buckets && c in r.buckets && h in Having(hits, value, b.key) && h in Having(hits, value, c.key) ==> b == c
  {
    KeptRankAboveDropped(r, Counts(hits, value), size);
    forall b | b in r.buckets ensures |Having(hits, value, b.key)| == b.count > 0 {
      HavingNone(hits, value, b.key);
    }
  }

  /** The hits of all values together are the hits that have the field, each as often as it was hit. */
  lemma {:induction false} HavingIsFilter(hits: seq<Hit>, value: ValueOf, k: string, h: Hit)
    ensures multiset(Having(hits, value, k))[h] == if value(h) == Some(k) then multiset(hits)[h] else 0
  {
    if hits != [] {
      var n := |hits| - 1;
      HavingIsFilter(hits[..n], value, k, h);
      assert hits == hits[..n] + [hits[n]];
    }
  }
}
