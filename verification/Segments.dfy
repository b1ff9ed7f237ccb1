/** Segments of the inverted index: flushing, merging and searching (internal/server/segment.go). */
module Segments {
  import opened Collections
  import opened Common
  import opened Text
  import opened InvertedIndex
  import Bloom

  datatype Segment = Segment(field: string, postings: map<string, seq<string>>, docIds: seq<string>,
                             bloom: seq<Bloom.Byte>)

  /** One index: the last id given out, the active ids, and what the store holds under each id. */
  datatype IndexSegs = IndexSegs(counter: nat, active: seq<nat>, data: map<nat, Segment>, sizes: map<nat, nat>)

  const NONE: IndexSegs := IndexSegs(0, [], map[], map[])

  /** The length of a segment's stored form. */
  type SizeOf = Segment -> nat

  // ------------------------------------------------------------------
  // One segment
  // ------------------------------------------------------------------

  /** In ascending order, each once. */
  ghost predicate SortedListing(ids: seq<string>, s: set<string>) {
    && (forall i, j :: 0 <= i < j < |ids| ==> Less(ids[i], ids[j]))
    && (forall id :: id in ids <==> id in s)
  }

  function AllIds(terms: Terms): set<string> { set t, id | t in terms && id in terms[t] :: id }

  /** The filter was built for the segment's own terms. */
  ghost predicate FilterFits(h: Bloom.Hash, seg: Segment) {
    exists ts :: Listing(ts, seg.postings.Keys) && seg.bloom == Bloom.Marshal(Bloom.Build(h, |seg.postings|, ts).bits)
  }

  /** The segment written for a field with these terms. */
  ghost predicate SegmentFor(h: Bloom.Hash, seg: Segment, field: string, terms: Terms) {
    && seg.field == field
    && seg.postings.Keys == terms.Keys
    && (forall t :: t in terms ==> SortedListing(seg.postings[t], terms[t]))
    && SortedListing(seg.docIds, AllIds(terms))
    && FilterFits(h, seg)
  }

  function SegmentHits(seg: Segment, field: string, term: string): set<string> {
    if seg.field == field && term in seg.postings then set id | id in seg.postings[term] else {}
  }

  lemma {:induction false} HitsOfSegmentFor(h: Bloom.Hash, seg: Segment, field: string, terms: Terms, f: string,
                                            t: string)
    requires SegmentFor(h, seg, field, terms)
    ensures SegmentHits(seg, f, t) == if f == field then IdsOf(terms, t) else {}
  {
    if f == field && t in terms {
      assert SortedListing(seg.postings[t], terms[t]);
    }
  }

  // ------------------------------------------------------------------
  // One index
  // ------------------------------------------------------------------

  predicate Ascending(ids: seq<nat>) { forall i, j :: 0 <= i < j < |ids| ==> ids[i] < ids[j] }

  /** Ids ascend and were given out before; exactly the active segments are stored. */
  ghost predicate Valid(s: IndexSegs) {
    && Ascending(s.active)
    && (forall id :: id in s.active ==> 0 < id <= s.counter)
    && (forall id :: id in s.data <==> id in s.active)
    && s.sizes.Keys == s.data.Keys
  }

  /** What the active segments hold for a term. */
  function Found(s: IndexSegs, field: string, term: string): set<string> {
    set id, x | id in s.data && x in SegmentHits(s.data[id], field, term) :: x
  }

  function Append(s: IndexSegs, seg: Segment, size: nat): IndexSegs {
    var id := s.counter + 1;
    IndexSegs(id, s.active + [id], s.data[id := seg], s.sizes[id := size])
  }

  function AppendAll(s: IndexSegs, segs: seq<Segment>, sizeOf: SizeOf): IndexSegs {
    if segs == [] then s
    else Append(AppendAll(s, segs[..|segs|-1], sizeOf), segs[|segs|-1], sizeOf(segs[|segs|-1]))
  }

  function FilterOut(ids: seq<nat>, drop: seq<nat>): seq<nat> {
    if ids == [] then [] else (if ids[0] in drop then [] else [ids[0]]) + FilterOut(ids[1..], drop)
  }

  function Elements(ids: seq<nat>): set<nat> { set id | id in ids }

  function Without(s: IndexSegs, drop: seq<nat>): IndexSegs {
    IndexSegs(s.counter, FilterOut(s.active, drop), s.data - Elements(drop), s.sizes - Elements(drop))
  }

  // ------------------------------------------------------------------
  // The two operations
  // ------------------------------------------------------------------

  function FieldsOf(segs: seq<Segment>): seq<string> { seq(|segs|, i requires 0 <= i < |segs| => segs[i].field) }

  /** One segment for each field of the snapshot, in any order. */
  ghost predicate IsFlush(h: Bloom.Hash, snap: map<string, Terms>, news: seq<Segment>) {
    && Listing(FieldsOf(news), snap.Keys)
    && forall k :: 0 <= k < |news| ==>
         news[k].field in snap && SegmentFor(h, news[k], news[k].field, snap[news[k].field])
  }

  function ChosenFields(s: IndexSegs, drop: seq<nat>): set<string> {
    set id | id in drop && id in s.data :: s.data[id].field
  }

  /** The terms of one field over the chosen segments, each with the union of its documents. */
  function MergedTerms(s: IndexSegs, drop: seq<nat>, field: string): Terms {
    map t | t in TermsIn(s, drop, field) ::
      set id, x | id in drop && id in s.data && x in SegmentHits(s.data[id], field, t) :: x
  }

  function TermsIn(s: IndexSegs, drop: seq<nat>, field: string): set<string> {
    set id, t | id in drop && id in s.data && s.data[id].field == field && t in s.data[id].postings :: t
  }

  /** A merge takes so many smallest segments that max - 1 others remain, ties in any order, and writes one segment for
      each of their fields. */
  ghost predicate IsMerge(h: Bloom.Hash, s: IndexSegs, max: nat, drop: seq<nat>, news: seq<Segment>)
    requires Valid(s)
  {
    && 1 <= max < |s.active|
    && |drop| == |s.active| - max + 1
    && (forall i, j :: 0 <= i < j < |drop| ==> drop[i] != drop[j])
    && (forall id :: id in drop ==> id in s.active)
    && (forall id, kept :: id in drop && kept in s.active && kept !in drop ==> s.sizes[id] <= s.sizes[kept])
    && Listing(FieldsOf(news), ChosenFields(s, drop))
    && forall k :: 0 <= k < |news| ==> SegmentFor(h, news[k], news[k].field, MergedTerms(s, drop, news[k].field))
  }

  function Merged(s: IndexSegs, drop: seq<nat>, news: seq<Segment>, sizeOf: SizeOf): IndexSegs {
    AppendAll(Without(s, drop), news, sizeOf)
  }

  // ------------------------------------------------------------------
  // What they keep
  // ------------------------------------------------------------------

  lemma {:induction false} AppendKeepsValid(s: IndexSegs, seg: Segment, size: nat)
    requires Valid(s)
    ensures Valid(Append(s, seg, size))
  {
    var s' := Append(s, seg, size);
    assert forall k :: 0 <= k < |s.active| ==> s.active[k] in s.active && s'.active[k] == s.active[k];
  }

  lemma {:induction false} AppendAdds(s: IndexSegs, seg: Segment, size: nat)
    requires Valid(s)
    ensures var s' := Append(s, seg, size);
      && s'.active == s.active + [s.counter + 1] && s'.counter == s.counter + 1
      && (forall id :: id in s.active ==> id in s.data && s'.data[id] == s.data[id] && s'.sizes[id] == s.sizes[id])
  {
  }

  lemma {:induction false} FoundAfterAppend(s: IndexSegs, seg: Segment, size: nat, f: string, t: string)
    requires Valid(s)
    ensures Found(Append(s, seg, size), f, t) == Found(s, f, t) + SegmentHits(seg, f, t)
  {
    var s' := Append(s, seg, size);
    hide SegmentHits;
    assert s'.counter in s'.data && s'.data[s'.counter] == seg;
    forall id | id in s.data ensures id in s'.data && s'.data[id] == s.data[id] {
      assert id in s.active;
    }
  }

  lemma {:induction false} AppendAllKeeps(s: IndexSegs, segs: seq<Segment>, sizeOf: SizeOf)
    requires Valid(s)
    ensures var s' := AppendAll(s, segs, sizeOf);
      && Valid(s') && |s'.active| == |s.active| + |segs| && s.active <= s'.active
      && s'.counter == s.counter + |segs|
      && (forall id :: id in s'.active ==> id in s.active || id > s.counter)
      && (forall id :: id in s.active ==> s'.data[id] == s.data[id] && s'.sizes[id] == s.sizes[id])
  {
    if segs != [] {
      var n := |segs| - 1;
      var prior := AppendAll(s, segs[..n], sizeOf);
      AppendAllKeeps(s, segs[..n], sizeOf);
      assert AppendAll(s, segs, sizeOf) == Append(prior, segs[n], sizeOf(segs[n]));
      AppendKeepsValid(prior, segs[n], sizeOf(segs[n]));
      AppendAdds(prior, segs[n], sizeOf(segs[n]));
      hide Valid, AppendAll, Append;
    }
  }

  lemma {:induction false} FoundAfterAppendAll(s: IndexSegs, segs: seq<Segment>, sizeOf: SizeOf, f: string, t: string,
                                               x: string)
    requires Valid(s)
    ensures x in Found(AppendAll(s, segs, sizeOf), f, t) <==>
            x in Found(s, f, t) || exists k :: 0 <= k < |segs| && x in SegmentHits(segs[k], f, t)
  {
    hide SegmentHits, Found;
    if segs != [] {
      var n := |segs| - 1;
      FoundAfterAppendAll(s, segs[..n], sizeOf, f, t, x);
      AppendAllKeeps(s, segs[..n], sizeOf);
      FoundAfterAppend(AppendAll(s, segs[..n], sizeOf), segs[n], sizeOf(segs[n]), f, t);
      hide Valid, AppendAll;
      assert forall k :: 0 <= k < n ==> segs[..n][k] == segs[k];
      if k :| 0 <= k < |segs| && x in SegmentHits(segs[k], f, t) {
        if k < n {
          assert x in SegmentHits(segs[..n][k], f, t);
        }
      }
      if k :| 0 <= k < n && x in SegmentHits(segs[..n][k], f, t) {
        assert x in SegmentHits(segs[k], f, t);
      }
      assert AppendAll(s, segs, sizeOf) == Append(AppendAll(s, segs[..n], sizeOf), segs[n], sizeOf(segs[n])) by {
        AppendLast(s, segs, sizeOf);
      }
    }
  }

  lemma {:induction false} AppendLast(s: IndexSegs, segs: seq<Segment>, sizeOf: SizeOf)
    requires segs != []
    ensures var n := |segs| - 1;
      AppendAll(s, segs, sizeOf) == Append(AppendAll(s, segs[..n], sizeOf), segs[n], sizeOf(segs[n]))
  {
  }

  /** A flush adds exactly the snapshot. */
  lemma {:induction false} FlushAddsSnapshot(h: Bloom.Hash, s: IndexSegs, snap: map<string, Terms>, news: seq<Segment>,
                                             sizeOf: SizeOf, f: string, t: string)
    requires Valid(s) && IsFlush(h, snap, news)
    ensures Found(AppendAll(s, news, sizeOf), f, t) == Found(s, f, t) + IdsOf(TermsAt(snap, f), t)
  {
    hide *;
    forall x
      ensures x in Found(AppendAll(s, news, sizeOf), f, t) <==> x in Found(s, f, t) + IdsOf(TermsAt(snap, f), t)
    {
      FoundAfterAppendAll(s, news, sizeOf, f, t, x);
      NewsHoldSnapshot(h, snap, news, f, t, x);
    }
  }

  lemma {:induction false} NewsHoldSnapshot(h: Bloom.Hash, snap: map<string, Terms>, news: seq<Segment>,
                                            f: string, t: string, x: string)
    requires IsFlush(h, snap, news)
    ensures (exists k :: 0 <= k < |news| && x in SegmentHits(news[k], f, t)) <==> x in IdsOf(TermsAt(snap, f), t)
  {
    forall k | 0 <= k < |news|
      ensures SegmentHits(news[k], f, t) == if f == news[k].field then IdsOf(TermsAt(snap, f), t) else {}
    {
      NewSegmentHits(h, snap, news, k, f, t);
    }
    assert FieldsListed(snap, news);
    hide *;
    ListedSomewhere(snap, news, f, t, x);
  }

  ghost predicate FieldsListed(snap: map<string, Terms>, news: seq<Segment>) {
    forall f :: f in FieldsOf(news) <==> f in snap
  }

  lemma {:induction false} NewSegmentHits(h: Bloom.Hash, snap: map<string, Terms>, news: seq<Segment>, k: nat,
                                          f: string, t: string)
    requires IsFlush(h, snap, news) && k < |news|
    ensures SegmentHits(news[k], f, t) == if f == news[k].field then IdsOf(TermsAt(snap, f), t) else {}
  {
    HitsOfSegmentFor(h, news[k], news[k].field, snap[news[k].field], f, t);
    hide SegmentFor, SegmentHits, IdsOf;
  }

  lemma {:induction false} ListedSomewhere(snap: map<string, Terms>, news: seq<Segment>, f: string, t: string,
                                           x: string)
    requires FieldsListed(snap, news)
    requires forall k :: 0 <= k < |news| ==>
      SegmentHits(news[k], f, t) == if f == news[k].field then IdsOf(TermsAt(snap, f), t) else {}
    ensures (exists k :: 0 <= k < |news| && x in SegmentHits(news[k], f, t)) <==> x in IdsOf(TermsAt(snap, f), t)
  {
    hide SegmentHits;
    if x in IdsOf(TermsAt(snap, f), t) {
      assert f in snap && f in FieldsOf(news);
      var k :| 0 <= k < |FieldsOf(news)| && FieldsOf(news)[k] == f;
      assert x in SegmentHits(news[k], f, t);
    }
  }

  lemma {:induction false} FilterOutMembers(ids: seq<nat>, drop: seq<nat>)
    requires Ascending(ids)
    ensures Ascending(FilterOut(ids, drop))
    ensures forall id :: id in FilterOut(ids, drop) <==> id in ids && id !in drop
  {
    if ids != [] {
      FilterOutMembers(ids[1..], drop);
      assert ids == [ids[0]] + ids[1..];
      var rest := FilterOut(ids[1..], drop);
      forall k | 0 <= k < |rest| ensures ids[0] < rest[k] {
        assert rest[k] in ids[1..];
      }
    }
  }

  lemma {:induction false} WithoutKeepsValid(s: IndexSegs, drop: seq<nat>)
    requires Valid(s)
    ensures Valid(Without(s, drop))
  {
    FilterOutMembers(s.active, drop);
  }

  lemma {:induction false} MergedHits(s: IndexSegs, drop: seq<nat>, f: string, t: string)
    ensures IdsOf(MergedTerms(s, drop, f), t) ==
            set id, x | id in drop && id in s.data && x in SegmentHits(s.data[id], f, t) :: x
  {
    if t !in TermsIn(s, drop, f) {
      assert forall id :: id in drop && id in s.data && s.data[id].field == f && t in s.data[id].postings ==>
        t in TermsIn(s, drop, f);
    }
  }

  /** A merge keeps, for every field and term, the union of the postings over the active segments. */
  lemma {:induction false} MergePreservesUnion(h: Bloom.Hash, s: IndexSegs, max: nat, drop: seq<nat>,
                                               news: seq<Segment>, sizeOf: SizeOf, f: string, t: string)
    requires Valid(s) && IsMerge(h, s, max, drop, news)
    ensures Found(Merged(s, drop, news, sizeOf), f, t) == Found(s, f, t)
  {
    WithoutKeepsValid(s, drop);
    hide *;
    forall x ensures x in Found(Merged(s, drop, news, sizeOf), f, t) <==> x in Found(s, f, t) {
      FoundAfterMerge(s, drop, news, sizeOf, f, t, x);
      NewsHoldChosen(h, s, max, drop, news, f, t, x);
      FoundSplit(s, drop, f, t, x);
    }
  }

  lemma {:induction false} FoundAfterMerge(s: IndexSegs, drop: seq<nat>, news: seq<Segment>, sizeOf: SizeOf,
                                           f: string, t: string, x: string)
    requires Valid(s)
    ensures x in Found(Merged(s, drop, news, sizeOf), f, t) <==>
            x in Found(Without(s, drop), f, t) || exists k :: 0 <= k < |news| && x in SegmentHits(news[k], f, t)
  {
    WithoutKeepsValid(s, drop);
    FoundAfterAppendAll(Without(s, drop), news, sizeOf, f, t, x);
  }

  lemma {:induction false} FoundSplit(s: IndexSegs, drop: seq<nat>, f: string, t: string, x: string)
    ensures x in Found(s, f, t) <==>
      x in Found(Without(s, drop), f, t)
      || exists id :: id in drop && id in s.data && x in SegmentHits(s.data[id], f, t)
  {
    hide SegmentHits;
    var kept := Without(s, drop);
    assert forall id :: id in kept.data <==> id in s.data && id !in drop;
    assert forall id :: id in kept.data ==> kept.data[id] == s.data[id];
    if id :| id in s.data && x in SegmentHits(s.data[id], f, t) {
      if id !in drop {
        assert id in kept.data && x in SegmentHits(kept.data[id], f, t);
      }
    }
  }

  lemma {:induction false} NewsHoldChosen(h: Bloom.Hash, s: IndexSegs, max: nat, drop: seq<nat>, news: seq<Segment>,
                                          f: string, t: string, x: string)
    requires Valid(s) && IsMerge(h, s, max, drop, news)
    ensures (exists k :: 0 <= k < |news| && x in SegmentHits(news[k], f, t)) <==>
            (exists id :: id in drop && id in s.data && x in SegmentHits(s.data[id], f, t))
  {
    hide Valid;
    forall k | 0 <= k < |news|
      ensures SegmentHits(news[k], f, t) == if f == news[k].field then IdsOf(MergedTerms(s, drop, f), t) else {}
    {
      HitsOfSegmentFor(h, news[k], news[k].field, MergedTerms(s, drop, news[k].field), f, t);
    }
    MergedHits(s, drop, f, t);
    hide SegmentFor, MergedTerms;
    if id :| id in drop && id in s.data && x in SegmentHits(s.data[id], f, t) {
      assert s.data[id].field == f && f in ChosenFields(s, drop);
      var k :| 0 <= k < |FieldsOf(news)| && FieldsOf(news)[k] == f;
      assert x in SegmentHits(news[k], f, t);
    }
  }

  lemma {:induction false} FilterOutLength(ids: seq<nat>, drop: seq<nat>)
    requires Ascending(ids) && (forall i, j :: 0 <= i < j < |drop| ==> drop[i] != drop[j])
    requires forall id :: id in drop ==> id in ids
    ensures |FilterOut(ids, drop)| == |ids| - |drop|
  {
    FilterOutMembers(ids, drop);
    var kept := FilterOut(ids, drop);
    ListingSize(ids, Elements(ids));
    ListingSize(drop, Elements(drop));
    ListingSize(kept, Elements(kept));
    assert Elements(ids) == Elements(kept) + Elements(drop);
  }

  /** A merge leaves max - 1 old segments and one new one for each distinct field it merged; the ids ascend, and the new
      ones were never given out. */
  lemma {:induction false} MergeCounts(h: Bloom.Hash, s: IndexSegs, max: nat, drop: seq<nat>, news: seq<Segment>,
                                       sizeOf: SizeOf)
    requires Valid(s) && IsMerge(h, s, max, drop, news)
    ensures var s' := Merged(s, drop, news, sizeOf);
      && Valid(s') && |s'.active| == max - 1 + |ChosenFields(s, drop)| && |news| == |ChosenFields(s, drop)|
      && s'.counter == s.counter + |news|
      && forall id :: id in s'.active ==> (id in s.active && id !in drop) || id > s.counter
  {
    WithoutKeepsValid(s, drop);
    AppendAllKeeps(Without(s, drop), news, sizeOf);
    FilterOutMembers(s.active, drop);
    FilterOutLength(s.active, drop);
    ListingSize(FieldsOf(news), ChosenFields(s, drop));
    hide AppendAll, FilterOut, SegmentFor, ChosenFields;
  }

  /** The limit asked for is kept if and only if the merged segments are all of one field. */
  lemma {:induction false} LimitKeptExactlyWhen(h: Bloom.Hash, s: IndexSegs, max: nat, drop: seq<nat>,
                                                news: seq<Segment>, sizeOf: SizeOf)
    requires Valid(s) && IsMerge(h, s, max, drop, news)
    ensures |Merged(s, drop, news, sizeOf).active| <= max <==>
            forall i, j :: i in drop && j in drop ==> s.data[i].field == s.data[j].field
  {
    MergeCounts(h, s, max, drop, news, sizeOf);
    assert drop != [] && forall id :: id in drop ==> id in s.data;
    hide *;
    OneFieldExactlyWhen(s, drop);
  }

  lemma {:induction false} OneFieldExactlyWhen(s: IndexSegs, drop: seq<nat>)
    requires drop != [] && forall id :: id in drop ==> id in s.data
    ensures |ChosenFields(s, drop)| <= 1 <==>
            forall i, j :: i in drop && j in drop ==> s.data[i].field == s.data[j].field
  {
    var fields := ChosenFields(s, drop);
    assert drop[0] in drop;
    var f := s.data[drop[0]].field;
    assert f in fields;
    if forall i, j :: i in drop && j in drop ==> s.data[i].field == s.data[j].field {
      assert fields == {f};
    } else {
      var i, j :| i in drop && j in drop && s.data[i].field != s.data[j].field;
      assert s.data[i].field in fields && s.data[j].field in fields;
      assert |{s.data[i].field, s.data[j].field}| == 2;
      SubsetSize({s.data[i].field, s.data[j].field}, fields);
    }
  }

  // ------------------------------------------------------------------
  // Searching through the filters
  // ------------------------------------------------------------------

  /** SearchTerm reads a segment unless its reloaded filter denies the term. */
  predicate Passes(h: Bloom.Hash, seg: Segment, term: string) {
    |seg.bloom| >= 8 ==> Bloom.Allows(h, Bloom.Unmarshal(seg.bloom), term)
  }

  function FilteredFound(h: Bloom.Hash, s: IndexSegs, field: string, term: string): set<string> {
    set id, x | id in s.data && Passes(h, s.data[id], term) && x in SegmentHits(s.data[id], field, term) :: x
  }

  /** Up to 102 terms, or a multiple of 32. */
  predicate FaithfulCount(n: nat) { n <= 102 || n % 32 == 0 }

  lemma {:induction false} FaithfulPasses(h: Bloom.Hash, seg: Segment, term: string)
    requires FilterFits(h, seg) && FaithfulCount(|seg.postings|) && term in seg.postings
    ensures Passes(h, seg, term)
  {
    var n := |seg.postings|;
    var ts :| Listing(ts, seg.postings.Keys) && seg.bloom == Bloom.Marshal(Bloom.Build(h, n, ts).bits);
    Bloom.AlignedExactlyWhen(n);
    Bloom.AlignedReloadsAlike(h, n, ts);
    Bloom.NeverDeniesAdded(h, n, ts, term);
  }

  /** With faithful filters a search finds all the active segments hold; in any case it finds nothing else. */
  lemma {:induction false} FilteringIsExact(h: Bloom.Hash, s: IndexSegs, field: string, term: string)
    requires forall id :: id in s.data ==> FilterFits(h, s.data[id])
    ensures FilteredFound(h, s, field, term) <= Found(s, field, term)
    ensures (forall id :: id in s.data ==> FaithfulCount(|s.data[id].postings|)) ==>
              FilteredFound(h, s, field, term) == Found(s, field, term)
  {
    if forall id :: id in s.data ==> FaithfulCount(|s.data[id].postings|) {
      forall id, x | id in s.data && x in SegmentHits(s.data[id], field, term) ensures Passes(h, s.data[id], term) {
        FaithfulPasses(h, s.data[id], term);
      }
    }
  }

  function Repeat(n: nat): string { seq(n, _ => 'a') }

  function ManyTerms(n: nat): seq<string> { seq(n, i requires 0 <= i < n => Repeat(i)) }

  function ManyPostings(n: nat): map<string, seq<string>> { map i | 0 <= i < n :: Repeat(i) := ["id"] }

  lemma {:induction false} ManyTermsListed(n: nat)
    ensures Listing(ManyTerms(n), ManyPostings(n).Keys) && |ManyPostings(n)| == n
  {
    var ts, ps := ManyTerms(n), ManyPostings(n);
    forall i, j | 0 <= i < j < n ensures ts[i] != ts[j] {
      assert |ts[i]| == i && |ts[j]| == j;
    }
    forall t ensures t in ts <==> t in ps.Keys {
      if t in ts {
        var i :| 0 <= i < |ts| && ts[i] == t;
        assert Repeat(i) == t;
      }
      if t in ps {
        var i :| 0 <= i < n && Repeat(i) == t;
        assert ts[i] == t;
      }
    }
    ListingSize(ts, ps.Keys);
  }

  /** For segments of n terms, no search misses a term because of the filter, whatever the hash, if and only if n is
      faithful. */
  lemma {:induction false} FiltersFaithfulExactlyWhen(n: nat)
    requires Bloom.Fits(n)
    ensures FaithfulCount(n) <==>
      forall h, seg, t :: FilterFits(h, seg) && |seg.postings| == n && t in seg.postings ==> Passes(h, seg, t)
  {
    if FaithfulCount(n) {
      forall h, seg, t | FilterFits(h, seg) && |seg.postings| == n && t in seg.postings ensures Passes(h, seg, t) {
        FaithfulPasses(h, seg, t);
      }
    } else {
      Bloom.AlignedExactlyWhen(n);
      var h: Bloom.Hash := (s: string) => (Bloom.SizeFor(n) as Bloom.U64, 1);
      var f := Bloom.Build(h, n, ManyTerms(n));
      var seg := Segment("f", ManyPostings(n), ["id"], Bloom.Marshal(f.bits));
      ManyTermsListed(n);
      var t := Repeat(0);
      assert t in seg.postings;
      Bloom.DeniedAfterReload(h, n, ManyTerms(n), t);
      assert FilterFits(h, seg) && !Passes(h, seg, t);
    }
  }
}
