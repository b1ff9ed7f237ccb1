/** The segment manager's loops (internal/server/segment.go). */
module SegmentManager {
  import opened Collections
  import opened Common
  import opened Text
  import opened InvertedIndex
  import opened Segments
  import opened SegmentRuns
  import Bloom
  import Tokenizer

  // ------------------------------------------------------------------
  // Sorting
  // ------------------------------------------------------------------

  /** The members of a set in ascending order: collected in any order, then sorted. */
  method SortedIds(s: set<string>) returns (ids: seq<string>)
    ensures SortedListing(ids, s)
  {
    ids := [];
    var todo := s;
    while todo != {}
      invariant todo <= s && SortedListing(ids, s - todo)
      decreases todo
    {
      var id :| id in todo;
      ids := InsertString(ids, id, s - todo);
      todo := todo - {id};
      assert s - todo == s - (todo + {id}) + {id};
    }
    assert s - {} == s;
  }

  method InsertString(ids: seq<string>, id: string, ghost s: set<string>) returns (r: seq<string>)
    requires SortedListing(ids, s) && id !in s
    ensures SortedListing(r, s + {id})
  {
    var i := 0;
    while i < |ids| && Less(ids[i], id)
      invariant i <= |ids| && forall k :: 0 <= k < i ==> Less(ids[k], id)
    {
      i := i + 1;
    }
    forall k | i <= k < |ids| ensures Less(id, ids[k]) {
      assert ids[i] in ids;
      LessTotal(ids[i], id);
      if k > i {
        LessTransitive(id, ids[i], ids[k]);
      }
    }
    r := ids[..i] + [id] + ids[i..];
    assert ids == ids[..i] + ids[i..];
  }

  predicate BySize(ids: seq<nat>, sizes: map<nat, nat>) {
    (forall id :: id in ids ==> id in sizes) && forall i, j :: 0 <= i < j < |ids| ==> sizes[ids[i]] <= sizes[ids[j]]
  }

  /** r is ids with one more member, anywhere. */
  ghost predicate OneMore(ids: seq<nat>, id: nat, r: seq<nat>) {
    exists i :: 0 <= i <= |ids| && r == ids[..i] + [id] + ids[i..]
  }

  lemma {:induction false} OneMoreMembers(ids: seq<nat>, id: nat, r: seq<nat>)
    requires OneMore(ids, id, r)
    ensures |r| == |ids| + 1 && forall x :: x in r <==> x in ids || x == id
  {
    var i :| 0 <= i <= |ids| && r == ids[..i] + [id] + ids[i..];
    assert ids == ids[..i] + ids[i..];
  }

  lemma {:induction false} OneMoreDistinct(ids: seq<nat>, id: nat, r: seq<nat>)
    requires OneMore(ids, id, r) && NoRepeats(ids) && id !in ids
    ensures NoRepeats(r)
  {
    var i :| 0 <= i <= |ids| && r == ids[..i] + [id] + ids[i..];
    assert forall k :: 0 <= k < |r| ==> r[k] == if k < i then ids[k] else if k == i then id else ids[k-1];
    assert forall k :: 0 <= k < |ids| ==> ids[k] != id;
  }

  method InsertBySize(ids: seq<nat>, id: nat, sizes: map<nat, nat>) returns (r: seq<nat>)
    requires BySize(ids, sizes) && id in sizes
    ensures OneMore(ids, id, r) && BySize(r, sizes)
  {
    var i := 0;
    while i < |ids| && sizes[ids[i]] <= sizes[id]
      invariant i <= |ids| && forall k :: 0 <= k < i ==> sizes[ids[k]] <= sizes[id]
    {
      i := i + 1;
    }
    r := ids[..i] + [id] + ids[i..];
  }

  /** The segments by size, smallest first. */
  method SortBySize(ids: seq<nat>, sizes: map<nat, nat>) returns (r: seq<nat>)
    requires NoRepeats(ids) && forall id :: id in ids ==> id in sizes
    ensures |r| == |ids| && NoRepeats(r) && (forall id :: id in r <==> id in ids) && BySize(r, sizes)
  {
    r := [];
    for n := 0 to |ids|
      invariant |r| == n && NoRepeats(r) && (forall id :: id in r <==> id in ids[..n]) && BySize(r, sizes)
    {
      hide BySize;
      assert ids[..n+1] == ids[..n] + [ids[n]];
      assert ids[n] in ids && ids[n] !in ids[..n];
      var more := InsertBySize(r, ids[n], sizes);
      OneMoreMembers(r, ids[n], more);
      OneMoreDistinct(r, ids[n], more);
      r := more;
    }
    assert ids[..|ids|] == ids;
  }

  method InsertId(ids: seq<nat>, id: nat) returns (r: seq<nat>)
    requires Ascending(ids) && id !in ids
    ensures OneMore(ids, id, r) && Ascending(r)
  {
    var i := 0;
    while i < |ids| && ids[i] < id
      invariant i <= |ids| && forall k :: 0 <= k < i ==> ids[k] < id
    {
      i := i + 1;
    }
    assert forall k :: i <= k < |ids| ==> ids[i] <= ids[k] && ids[k] in ids;
    r := ids[..i] + [id] + ids[i..];
  }

  method SortIds(ids: seq<nat>) returns (r: seq<nat>)
    requires NoRepeats(ids)
    ensures Ascending(r) && forall id :: id in r <==> id in ids
  {
    r := [];
    for n := 0 to |ids|
      invariant Ascending(r) && forall id :: id in r <==> id in ids[..n]
    {
      assert ids[..n+1] == ids[..n] + [ids[n]];
      assert ids[n] !in ids[..n];
      hide Ascending, NoRepeats;
      var more := InsertId(r, ids[n]);
      OneMoreMembers(r, ids[n], more);
      r := more;
    }
    assert ids[..|ids|] == ids;
  }

  lemma {:induction false} AscendingUnique(a: seq<nat>, b: seq<nat>)
    requires Ascending(a) && Ascending(b) && forall x :: x in a <==> x in b
    ensures a == b
  {
    if a == [] {
      EmptyOrMember(b);
    } else {
      assert a[0] in b && |b| > 0 && b[0] in a;
      assert a[0] == b[0];
      forall x ensures x in a[1..] <==> x in b[1..] {
        assert x in a <==> x in b;
        assert x in a <==> x == a[0] || x in a[1..] by { assert a == [a[0]] + a[1..]; }
        assert x in b <==> x == b[0] || x in b[1..] by { assert b == [b[0]] + b[1..]; }
      }
      AscendingUnique(a[1..], b[1..]);
    }
  }

  // ------------------------------------------------------------------
  // Building a segment
  // ------------------------------------------------------------------

  /** The segment's parts after the terms ts. */
  ghost predicate PartsFor(h: Bloom.Hash, terms: Terms, ts: seq<string>, postings: map<string, seq<string>>,
                           docIds: set<string>, f: Bloom.Filter)
  {
    && (forall t :: t in ts ==> t in terms) && (forall t :: t in postings <==> t in ts)
    && (forall t :: t in ts ==> SortedListing(postings[t], terms[t]))
    && (forall id :: id in docIds <==> exists t :: t in ts && id in terms[t])
    && f == Bloom.Build(h, |terms|, ts)
  }

  lemma {:induction false} OneMoreTerm(h: Bloom.Hash, terms: Terms, ts: seq<string>, postings: map<string, seq<string>>,
                                       docIds: set<string>, f: Bloom.Filter, t: string, ids: seq<string>)
    requires PartsFor(h, terms, ts, postings, docIds, f) && t in terms && SortedListing(ids, terms[t])
    ensures Bloom.Valid(f)
    ensures PartsFor(h, terms, ts + [t], postings[t := ids], docIds + terms[t], Bloom.Added(h, f, t))
  {
    hide SortedListing;
    var ts', docIds' := ts + [t], docIds + terms[t];
    assert ts'[..|ts|] == ts;
    assert forall u :: u in ts' <==> u in ts || u == t;
    forall id ensures id in docIds' <==> exists u :: u in ts' && id in terms[u] {
      if id in terms[t] {
        assert t in ts';
      }
      if u :| u in ts && id in terms[u] {
        assert u in ts';
      }
    }
  }

  lemma {:induction false} PartsComplete(h: Bloom.Hash, field: string, terms: Terms, ts: seq<string>,
                                         postings: map<string, seq<string>>, docIds: set<string>, f: Bloom.Filter,
                                         all: seq<string>)
    requires PartsFor(h, terms, ts, postings, docIds, f) && Listing(ts, terms.Keys) && SortedListing(all, docIds)
    ensures SegmentFor(h, Segment(field, postings, all, Bloom.Marshal(f.bits)), field, terms)
  {
    hide SortedListing;
    assert docIds == AllIds(terms);
    assert postings.Keys == terms.Keys;
    assert |postings| == |terms| by { assert |postings.Keys| == |terms.Keys|; }
  }

  lemma {:induction false} NoParts(h: Bloom.Hash, terms: Terms)
    ensures PartsFor(h, terms, [], map[], {}, Bloom.Empty(|terms|))
  {
  }

  method BuildSegment(h: Bloom.Hash, field: string, terms: Terms) returns (seg: Segment)
    ensures SegmentFor(h, seg, field, terms)
  {
    hide *;
    var filter := new Bloom.BloomFilter(|terms|);
    var postings: map<string, seq<string>> := map[];
    var docIds: set<string> := {};
    var order := KeysOf(terms);
    NoParts(h, terms);
    for i := 0 to |order|
      invariant fresh(filter.bits) && PartsFor(h, terms, order[..i], postings, docIds, filter.Value())
    {
      var t := order[i];
      ListedIsMember(order, terms.Keys, i);
      var ids := SortedIds(terms[t]);
      OneMoreTerm(h, terms, order[..i], postings, docIds, filter.Value(), t, ids);
      assert order[..i+1] == order[..i] + [t];
      postings := postings[t := ids];
      docIds := docIds + terms[t];
      filter.Add(h, t);
    }
    assert order[..|order|] == order;
    var all := SortedIds(docIds);
    var raw := filter.MarshalBinary();
    PartsComplete(h, field, terms, order, postings, docIds, filter.Value(), all);
    seg := Segment(field, postings, all, raw);
  }

  // ------------------------------------------------------------------
  // Merging the postings of a group
  // ------------------------------------------------------------------

  /** terms with the documents of the postings ts joined in. */
  function JoinedFor(terms: Terms, postings: map<string, seq<string>>, ts: seq<string>): Terms
    requires forall t :: t in ts ==> t in postings
  {
    if ts == [] then terms
    else
      var prior, t := JoinedFor(terms, postings, ts[..|ts|-1]), ts[|ts|-1];
      prior[t := IdsOf(prior, t) + Tokenizer.Distinct(postings[t])]
  }

  function Joined(terms: Terms, postings: map<string, seq<string>>): Terms {
    map t | t in terms.Keys + postings.Keys ::
      IdsOf(terms, t) + (if t in postings then Tokenizer.Distinct(postings[t]) else {})
  }

  lemma {:induction false} JoinedForAt(terms: Terms, postings: map<string, seq<string>>, ts: seq<string>, t: string)
    requires (forall u :: u in ts ==> u in postings) && NoRepeats(ts)
    ensures t in JoinedFor(terms, postings, ts) <==> t in terms || t in ts
    ensures IdsOf(JoinedFor(terms, postings, ts), t)
         == IdsOf(terms, t) + (if t in ts then Tokenizer.Distinct(postings[t]) else {})
  {
    if ts != [] {
      var n := |ts| - 1;
      JoinedForAt(terms, postings, ts[..n], t);
      assert ts == ts[..n] + [ts[n]] && ts[n] !in ts[..n];
    }
  }

  method JoinPostings(terms: Terms, postings: map<string, seq<string>>) returns (r: Terms)
    ensures r == Joined(terms, postings)
  {
    r := terms;
    var order := KeysOf(postings);
    assert forall t :: t in order ==> t in postings;
    for i := 0 to |order|
      invariant r == JoinedFor(terms, postings, order[..i])
    {
      assert order[..i+1][..i] == order[..i];
      r := r[order[i] := IdsOf(r, order[i]) + Tokenizer.Distinct(postings[order[i]])];
    }
    assert order[..|order|] == order;
    forall t ensures t in r <==> t in Joined(terms, postings)
             ensures t in r ==> r[t] == Joined(terms, postings)[t]
    {
      JoinedForAt(terms, postings, order, t);
    }
  }

  lemma {:induction false} MergedTermsSnoc(s: IndexSegs, ids: seq<nat>, id: nat, f: string)
    requires id in s.data && s.data[id].field == f
    ensures MergedTerms(s, ids + [id], f) == Joined(MergedTerms(s, ids, f), s.data[id].postings)
  {
    var seg := s.data[id];
    var a, b := MergedTerms(s, ids + [id], f), Joined(MergedTerms(s, ids, f), seg.postings);
    assert forall x :: x in ids + [id] <==> x in ids || x == id;
    assert TermsIn(s, ids + [id], f) == TermsIn(s, ids, f) + seg.postings.Keys;
    forall t | t in a ensures a[t] == b[t] {
      MergedHits(s, ids, f, t);
      MergedHits(s, ids + [id], f, t);
      assert a[t] == IdsOf(MergedTerms(s, ids, f), t) + SegmentHits(seg, f, t);
    }
  }

  lemma {:induction false} MergedTermsOfGroup(s: IndexSegs, drop: seq<nat>, group: seq<nat>, f: string)
    requires forall id :: id in group <==> id in drop && id in s.data && s.data[id].field == f
    ensures MergedTerms(s, group, f) == MergedTerms(s, drop, f)
  {
    assert TermsIn(s, group, f) == TermsIn(s, drop, f);
    var a, b := MergedTerms(s, group, f), MergedTerms(s, drop, f);
    forall t | t in a ensures a[t] == b[t] {
      MergedHits(s, group, f, t);
      MergedHits(s, drop, f, t);
    }
  }

  method MergeGroup(s: IndexSegs, group: seq<nat>, f: string) returns (terms: Terms)
    requires forall id :: id in group ==> id in s.data && s.data[id].field == f
    ensures terms == MergedTerms(s, group, f)
  {
    terms := map[];
    assert TermsIn(s, [], f) == {};
    for i := 0 to |group|
      invariant terms == MergedTerms(s, group[..i], f)
    {
      hide MergedTerms;
      assert group[..i+1] == group[..i] + [group[i]];
      MergedTermsSnoc(s, group[..i], group[i], f);
      terms := JoinPostings(terms, s.data[group[i]].postings);
    }
    assert group[..|group|] == group;
  }

  ghost predicate IsGrouping(s: IndexSegs, drop: seq<nat>, groups: map<string, seq<nat>>) {
    forall f, id :: f in groups ==> (id in groups[f] <==> id in drop && id in s.data && s.data[id].field == f)
  }

  /** The chosen segments by field. */
  method GroupByField(s: IndexSegs, drop: seq<nat>) returns (groups: map<string, seq<nat>>)
    requires forall id :: id in drop ==> id in s.data
    ensures groups.Keys == ChosenFields(s, drop) && IsGrouping(s, drop, groups)
  {
    groups := map[];
    hide ChosenFields;
    NoFields(s);
    for i := 0 to |drop|
      invariant groups.Keys == ChosenFields(s, drop[..i])
      invariant forall f, id :: f in groups ==> (id in groups[f] <==> id in drop[..i] && s.data[id].field == f)
    {
      assert drop[..i+1] == drop[..i] + [drop[i]];
      var f := s.data[drop[i]].field;
      OneMoreField(s, drop[..i], drop[i]);
      if f in groups {
        groups := groups[f := groups[f] + [drop[i]]];
      } else {
        groups := groups[f := [drop[i]]];
      }
    }
    assert drop[..|drop|] == drop;
  }

  lemma {:induction false} NoFields(s: IndexSegs)
    ensures ChosenFields(s, []) == {}
  {
  }

  lemma {:induction false} OneMoreField(s: IndexSegs, ids: seq<nat>, id: nat)
    requires id in s.data && forall x :: x in ids ==> x in s.data
    ensures ChosenFields(s, ids + [id]) == ChosenFields(s, ids) + {s.data[id].field}
    ensures forall x :: x in ids ==> s.data[x].field in ChosenFields(s, ids)
    ensures forall x :: x in ids + [id] <==> x in ids || x == id
  {
  }

  // ------------------------------------------------------------------
  // Writing new segments before the active list is replaced
  // ------------------------------------------------------------------

  function NewIds(counter: nat, n: nat): seq<nat> { seq(n, i requires 0 <= i < n => counter + 1 + i) }

  /** Stored under new ids, not yet active. */
  function StoreAll(s: IndexSegs, news: seq<Segment>, sizeOf: SizeOf): IndexSegs {
    AppendAll(s, news, sizeOf).(active := s.active)
  }

  function Stored(m: Manager, index: string, news: seq<Segment>, sizeOf: SizeOf): Manager {
    Manager(m.indices[index := StoreAll(SegsOf(m, index), news, sizeOf)],
            m.totalSegments + |news|, m.totalBytes + NewBytes(news, sizeOf), m.totalFlushes + |news|)
  }

  /** One more segment stored. */
  function StoredOne(m: Manager, index: string, seg: Segment, size: nat): Manager {
    var s := SegsOf(m, index);
    Manager(m.indices[index := Append(s, seg, size).(active := s.active)],
            m.totalSegments + 1, m.totalBytes + size, m.totalFlushes + 1)
  }

  predicate AllStored(m: Manager, index: string, ids: seq<nat>) {
    index in m.indices && forall id :: id in ids ==> id in m.indices[index].sizes
  }

  function Deleted(m: Manager, index: string, drop: seq<nat>): Manager {
    var s := SegsOf(m, index);
    Manager(m.indices[index := s.(data := s.data - Elements(drop), sizes := s.sizes - Elements(drop))],
            m.totalSegments - |drop|, m.totalBytes - Bytes(drop, s.sizes), m.totalFlushes)
  }

  lemma {:induction false} ActiveAfterAppendAll(s: IndexSegs, news: seq<Segment>, sizeOf: SizeOf)
    ensures AppendAll(s, news, sizeOf).active == s.active + NewIds(s.counter, |news|)
    ensures AppendAll(s, news, sizeOf).counter == s.counter + |news|
  {
    if news == [] {
      assert s.active + [] == s.active;
    } else {
      var n := |news| - 1;
      ActiveAfterAppendAll(s, news[..n], sizeOf);
      assert NewIds(s.counter, n + 1) == NewIds(s.counter, n) + [s.counter + n + 1];
      assert s.active + (NewIds(s.counter, n) + [s.counter + n + 1])
          == s.active + NewIds(s.counter, n) + [s.counter + n + 1];
    }
  }

  lemma {:induction false} AppendSnoc(s: IndexSegs, news: seq<Segment>, seg: Segment, sizeOf: SizeOf)
    ensures AppendAll(s, news + [seg], sizeOf) == Append(AppendAll(s, news, sizeOf), seg, sizeOf(seg))
    ensures NewBytes(news + [seg], sizeOf) == NewBytes(news, sizeOf) + sizeOf(seg)
  {
    assert (news + [seg])[..|news|] == news;
  }

  lemma {:induction false} StoredSnoc(m: Manager, index: string, news: seq<Segment>, seg: Segment, sizeOf: SizeOf)
    ensures Stored(m, index, news + [seg], sizeOf) == StoredOne(Stored(m, index, news, sizeOf), index, seg, sizeOf(seg))
  {
    AppendSnoc(SegsOf(m, index), news, seg, sizeOf);
    hide AppendAll, NewBytes;
  }

  /** Replacing the active list and then deleting the merged segments is what Merged says. */
  lemma {:induction false} MergeInPlace(s: IndexSegs, drop: seq<nat>, news: seq<Segment>, sizeOf: SizeOf)
    requires forall id :: id in drop ==> id <= s.counter
    ensures var w := StoreAll(s, news, sizeOf);
      Merged(s, drop, news, sizeOf)
      == IndexSegs(w.counter, FilterOut(s.active, drop) + NewIds(s.counter, |news|),
                   w.data - Elements(drop), w.sizes - Elements(drop))
  {
    ActiveAfterAppendAll(s, news, sizeOf);
    ActiveAfterAppendAll(Without(s, drop), news, sizeOf);
    StoredCommutes(s, drop, news, sizeOf);
    hide AppendAll;
  }

  lemma {:induction false} StoredCommutes(s: IndexSegs, drop: seq<nat>, news: seq<Segment>, sizeOf: SizeOf)
    requires forall id :: id in drop ==> id <= s.counter
    ensures var w, r := AppendAll(s, news, sizeOf), AppendAll(Without(s, drop), news, sizeOf);
      r.data == w.data - Elements(drop) && r.sizes == w.sizes - Elements(drop)
  {
    if news != [] {
      var n := |news| - 1;
      StoredCommutes(s, drop, news[..n], sizeOf);
      ActiveAfterAppendAll(s, news[..n], sizeOf);
      ActiveAfterAppendAll(Without(s, drop), news[..n], sizeOf);
      AppendLast(s, news, sizeOf);
      AppendLast(Without(s, drop), news, sizeOf);
      hide AppendAll;
      assert s.counter + n + 1 !in Elements(drop);
    }
  }

  /** The new active list: what was kept, whatever its order, and the new ids, sorted. */
  lemma {:induction false} FinalIds(s: IndexSegs, drop: seq<nat>, keep: seq<nat>, n: nat, r: seq<nat>)
    requires Valid(s)
    requires (forall id :: id in s.active <==> id in drop || id in keep) && forall id :: id in keep ==> id !in drop
    requires Ascending(r) && forall id :: id in r <==> id in keep || id in NewIds(s.counter, n)
    ensures r == FilterOut(s.active, drop) + NewIds(s.counter, n)
  {
    FilterOutMembers(s.active, drop);
    var kept, news := FilterOut(s.active, drop), NewIds(s.counter, n);
    hide FilterOut;
    forall i | 0 <= i < |kept| ensures kept[i] <= s.counter {
      assert kept[i] in s.active;
    }
    assert Ascending(kept + news);
    AscendingUnique(r, kept + news);
  }

  // ------------------------------------------------------------------
  // What the two loops have written so far
  // ------------------------------------------------------------------

  ghost predicate WrittenFor(h: Bloom.Hash, snap: map<string, Terms>, order: seq<string>, news: seq<Segment>) {
    && FieldsOf(news) == order
    && forall k :: 0 <= k < |news| ==> SegmentFor(h, news[k], news[k].field, TermsAt(snap, news[k].field))
  }

  lemma {:induction false} WrittenSnoc(h: Bloom.Hash, snap: map<string, Terms>, order: seq<string>, news: seq<Segment>,
                                       f: string, seg: Segment)
    requires WrittenFor(h, snap, order, news) && SegmentFor(h, seg, f, TermsAt(snap, f))
    ensures WrittenFor(h, snap, order + [f], news + [seg])
  {
    assert seg.field == f;
    hide SegmentFor;
    assert FieldsOf(news + [seg]) == FieldsOf(news) + [f];
  }

  lemma {:induction false} NothingWritten(h: Bloom.Hash, snap: map<string, Terms>)
    ensures WrittenFor(h, snap, [], [])
  {
  }

  lemma {:induction false} StoredNone(m: Manager, index: string, sizeOf: SizeOf)
    requires index in m.indices
    ensures Stored(m, index, [], sizeOf) == m && NewIds(SegsOf(m, index).counter, 0) == []
  {
    var s := SegsOf(m, index);
    assert StoreAll(s, [], sizeOf) == s && m.indices[index := s] == m.indices;
  }

  function AllMerged(s: IndexSegs, drop: seq<nat>): map<string, Terms> {
    map f | f in ChosenFields(s, drop) :: MergedTerms(s, drop, f)
  }

  /** The first n of the segments sorted by size are the smallest. */
  lemma {:induction false} DropIsSmallest(s: IndexSegs, infos: seq<nat>, n: nat)
    requires Valid(s) && |infos| == |s.active| && NoRepeats(infos) && forall id :: id in infos <==> id in s.active
    requires BySize(infos, s.sizes) && n <= |infos|
    ensures var drop, keep := infos[..n], infos[n..];
      && NoRepeats(drop) && NoRepeats(keep)
      && (forall id :: id in s.active <==> id in drop || id in keep) && (forall id :: id in keep ==> id !in drop)
      && (forall id, kept :: id in drop && kept in s.active && kept !in drop ==> s.sizes[id] <= s.sizes[kept])
  {
    assert infos == infos[..n] + infos[n..];
  }

  method BuildMerged(h: Bloom.Hash, s: IndexSegs, ghost drop: seq<nat>, groups: map<string, seq<nat>>, f: string)
    returns (seg: Segment)
    requires f in groups && groups.Keys == ChosenFields(s, drop) && IsGrouping(s, drop, groups)
    ensures SegmentFor(h, seg, f, TermsAt(AllMerged(s, drop), f))
  {
    assert TermsAt(AllMerged(s, drop), f) == MergedTerms(s, drop, f);
    hide MergedTerms, SegmentFor;
    var group := groups[f];
    var merged := MergeGroup(s, group, f);
    MergedTermsOfGroup(s, drop, group, f);
    seg := BuildSegment(h, f, merged);
  }

  // ------------------------------------------------------------------
  // The manager
  // ------------------------------------------------------------------

  class Segmenter {
    const h: Bloom.Hash
    const sizeOf: SizeOf
    var indices: map<string, IndexSegs>
    var totalSegments: int
    var totalBytes: int
    var totalFlushes: int

    constructor (h: Bloom.Hash, sizeOf: SizeOf)
      ensures Value() == BEGIN && this.h == h && this.sizeOf == sizeOf
    {
      this.h, this.sizeOf := h, sizeOf;
      indices, totalSegments, totalBytes, totalFlushes := map[], 0, 0, 0;
    }

    function Value(): Manager
      reads this
    {
      Manager(indices, totalSegments, totalBytes, totalFlushes)
    }

    /** Gives out the next id of the index and stores the segment under it. */
    method Store(index: string, seg: Segment) returns (id: nat)
      modifies this
      ensures id == old(SegsOf(Value(), index)).counter + 1
      ensures Value() == StoredOne(old(Value()), index, seg, sizeOf(seg))
    {
      var s := SegsOf(Value(), index);
      id := s.counter + 1;
      indices := indices[index := s.(counter := id, data := s.data[id := seg], sizes := s.sizes[id := sizeOf(seg)])];
      totalSegments, totalBytes, totalFlushes := totalSegments + 1, totalBytes + sizeOf(seg), totalFlushes + 1;
    }

    method Activate(index: string, id: nat)
      modifies this`indices
      ensures var m := old(Value());
        var s := SegsOf(m, index);
        Value() == m.(indices := m.indices[index := s.(active := s.active + [id])])
    {
      var s := SegsOf(Value(), index);
      indices := indices[index := s.(active := s.active + [id])];
    }

    method FlushNow(index: string, snap: map<string, Terms>) returns (created: nat)
      modifies this
      ensures created == |snap|
      ensures if snap == map[] then Value() == old(Value())
              else exists news :: IsFlush(h, snap, news) && Value() == Flushed(old(Value()), index, news, sizeOf)
    {
      created := 0;
      if snap == map[] {
        return;
      }
      ghost var order, news;
      created, order, news := WriteFields(index, snap);
      FlushDone(h, snap, order, news);
    }

    /** The index gets its entry in the manager's tables. */
    method OpenIndex(index: string)
      modifies this`indices
      ensures Value() == Flushed(old(Value()), index, [], sizeOf)
    {
      FlushedNone(Value(), index, sizeOf);
      indices := indices[index := SegsOf(Value(), index)];
    }

    method WriteFields(index: string, snap: map<string, Terms>) returns (created: nat, ghost order: seq<string>,
                                                                         ghost news: seq<Segment>)
      modifies this
      ensures created == |news| && Listing(order, snap.Keys) && WrittenFor(h, snap, order, news)
      ensures Value() == Flushed(old(Value()), index, news, sizeOf)
    {
      hide *;
      ghost var begin := Value();
      created, news := 0, [];
      OpenIndex(index);
      NothingWritten(h, snap);
      var fields := KeysOf(snap);
      order := fields;
      for i := 0 to |fields|
        invariant created == |news| && WrittenFor(h, snap, fields[..i], news)
        invariant Value() == Flushed(begin, index, news, sizeOf)
      {
        var f := fields[i];
        var seg := BuildSegment(h, f, TermsAt(snap, f));
        StoreActive(index, seg, begin, news);
        WrittenSnoc(h, snap, fields[..i], news, f, seg);
        assert fields[..i+1] == fields[..i] + [f];
        news := news + [seg];
        created := created + 1;
      }
      assert fields[..|fields|] == fields;
    }

    method StoreActive(index: string, seg: Segment, ghost begin: Manager, ghost news: seq<Segment>)
      requires Value() == Flushed(begin, index, news, sizeOf)
      modifies this
      ensures Value() == Flushed(begin, index, news + [seg], sizeOf)
    {
      hide *;
      FlushedSnoc(begin, index, news, seg, sizeOf);
      var id := Store(index, seg);
      Activate(index, id);
    }

    method MergeSegments(index: string, max: int) returns (merged: nat, created: nat)
      requires Valid(SegsOf(Value(), index))
      modifies this
      ensures var s := old(SegsOf(Value(), index));
        if max < 1 || |s.active| <= max then Value() == old(Value()) && merged == created == 0
        else exists drop, news ::
          IsMerge(h, s, max, drop, news) && Value() == MergedAll(old(Value()), index, drop, news, sizeOf)
          && merged == |drop| && created == |news|
    {
      var s := SegsOf(Value(), index);
      if max < 1 || |s.active| <= max {
        return 0, 0;
      }
      ghost var begin := Value();
      var infos := SortBySize(s.active, s.sizes);
      var n := |infos| - max + 1;
      DropIsSmallest(s, infos, n);
      var drop, keep := infos[..n], infos[n..];
      var newIds, order, news := WriteGroups(index, drop);
      Replace(index, begin, drop, keep, newIds, news);
      MergeDone(h, s, max, drop, order, news);
      merged, created := n, |newIds|;
    }

    method StoreInactive(index: string, seg: Segment, ghost begin: Manager, ghost news: seq<Segment>) returns (id: nat)
      requires Value() == Stored(begin, index, news, sizeOf)
      modifies this
      ensures Value() == Stored(begin, index, news + [seg], sizeOf)
      ensures id == SegsOf(begin, index).counter + |news| + 1
    {
      hide *;
      StoredSnoc(begin, index, news, seg, sizeOf);
      StoredCounter(begin, index, news, sizeOf);
      id := Store(index, seg);
    }

    /** One new segment for each field of the chosen ones. */
    method WriteGroups(index: string, drop: seq<nat>)
      returns (newIds: seq<nat>, ghost order: seq<string>, ghost news: seq<Segment>)
      requires index in Value().indices && forall id :: id in drop ==> id in SegsOf(Value(), index).data
      modifies this
      ensures var s := old(SegsOf(Value(), index));
        && Listing(order, ChosenFields(s, drop)) && WrittenFor(h, AllMerged(s, drop), order, news)
        && newIds == NewIds(s.counter, |news|)
      ensures Value() == Stored(old(Value()), index, news, sizeOf)
    {
      hide *;
      var s := SegsOf(Value(), index);
      ghost var begin := Value();
      news, newIds := [], [];
      StoredNone(begin, index, sizeOf);
      NothingWritten(h, AllMerged(s, drop));
      var groups := GroupByField(s, drop);
      var fields := KeysOf(groups);
      order := fields;
      for i := 0 to |fields|
        invariant WrittenFor(h, AllMerged(s, drop), fields[..i], news)
        invariant newIds == NewIds(s.counter, |news|)
        invariant Value() == Stored(begin, index, news, sizeOf)
      {
        var f := fields[i];
        assert f in fields && f in groups by { ListedIsMember(fields, groups.Keys, i); }
        var seg := BuildMerged(h, s, drop, groups, f);
        WrittenSnoc(h, AllMerged(s, drop), fields[..i], news, f, seg);
        var id := StoreInactive(index, seg, begin, news);
        NextNewId(s.counter, |news|);
        newIds := newIds + [id];
        news := news + [seg];
        assert fields[..i+1] == fields[..i] + [f];
      }
      assert fields[..|fields|] == fields;
    }

    /** The active list is replaced at once; then the merged segments are deleted one by one. */
    method Replace(index: string, ghost begin: Manager, drop: seq<nat>, keep: seq<nat>, newIds: seq<nat>,
                   ghost news: seq<Segment>)
      requires var s := SegsOf(begin, index);
        && Valid(s) && NoRepeats(drop) && NoRepeats(keep)
        && (forall id :: id in s.active <==> id in drop || id in keep) && (forall id :: id in keep ==> id !in drop)
        && newIds == NewIds(s.counter, |news|)
      requires Value() == Stored(begin, index, news, sizeOf)
      modifies this
      ensures Value() == MergedAll(begin, index, drop, news, sizeOf)
    {
      ghost var s := SegsOf(begin, index);
      assert NoRepeats(keep + newIds) by {
        forall i | 0 <= i < |keep| ensures keep[i] <= s.counter {
          assert keep[i] in s.active;
        }
      }
      var final := SortIds(keep + newIds);
      FinalIds(s, drop, keep, |news|, final);
      indices := indices[index := SegsOf(Value(), index).(active := final)];
      ghost var m := Value();
      AfterReplacement(begin, index, drop, news, sizeOf, final, m);
      hide *;
      DeleteSegments(index, drop);
    }

    /** Deletes segments that are no longer active. */
    method DeleteSegments(index: string, drop: seq<nat>)
      requires NoRepeats(drop) && AllStored(Value(), index, drop)
      modifies this
      ensures Value() == Deleted(old(Value()), index, drop)
    {
      ghost var s := SegsOf(Value(), index);
      var i := 0;
      assert Elements(drop[..0]) == {};
      assert s.data - {} == s.data && s.sizes - {} == s.sizes && indices == indices[index := s];
      while i < |drop|
        invariant i <= |drop|
        invariant indices == old(indices)[index := s.(data := s.data - Elements(drop[..i]),
                                                      sizes := s.sizes - Elements(drop[..i]))]
        invariant totalSegments == old(totalSegments) - i && totalFlushes == old(totalFlushes)
        invariant totalBytes == old(totalBytes) - Bytes(drop[..i], s.sizes)
      {
        assert drop[..i+1] == drop[..i] + [drop[i]] && drop[..i+1][..i] == drop[..i];
        assert drop[i] in drop && drop[i] !in drop[..i];
        assert Elements(drop[..i+1]) == Elements(drop[..i]) + {drop[i]};
        hide Elements;
        var cur := SegsOf(Value(), index);
        totalSegments, totalBytes := totalSegments - 1, totalBytes - cur.sizes[drop[i]];
        MinusOne(s.data, Elements(drop[..i]), drop[i]);
        MinusOne(s.sizes, Elements(drop[..i]), drop[i]);
        indices := indices[index := cur.(data := cur.data - {drop[i]}, sizes := cur.sizes - {drop[i]})];
        i := i + 1;
      }
      assert drop[..|drop|] == drop;
    }

    /** The documents of a term over the active segments, skipping those whose filter denies it. */
    method SearchTerm(index: string, field: string, term: string) returns (out: seq<string>)
      requires Valid(SegsOf(Value(), index))
      ensures SortedListing(out, FilteredFound(h, SegsOf(Value(), index), field, term))
    {
      var s := SegsOf(Value(), index);
      var found: set<string> := {};
      for k := 0 to |s.active|
        invariant forall x :: x in found <==>
          exists id :: id in s.active[..k] && id in s.data && Passes(h, s.data[id], term)
                       && x in SegmentHits(s.data[id], field, term)
      {
        assert s.active[..k+1] == s.active[..k] + [s.active[k]] && s.active[k] in s.active;
        var seg := s.data[s.active[k]];
        if seg.field != field {
          continue;
        }
        if |seg.bloom| >= 8 {
          var filter := new Bloom.BloomFilter.FromRaw(seg.bloom);
          var may := filter.MayContain(h, term);
          if !may {
            continue;
          }
        }
        if term in seg.postings {
          found := found + Tokenizer.Distinct(seg.postings[term]);
        }
      }
      assert s.active[..|s.active|] == s.active;
      assert found == FilteredFound(h, s, field, term);
      out := SortedIds(found);
    }
  }

  lemma {:induction false} MinusOne<T>(m: map<nat, T>, a: set<nat>, x: nat)
    ensures m - a - {x} == m - (a + {x})
  {
  }

  /** When the active list has been replaced, deleting the merged segments completes the merge. */
  lemma {:induction false} AfterReplacement(begin: Manager, index: string, drop: seq<nat>, news: seq<Segment>,
                                            sizeOf: SizeOf, final: seq<nat>, m: Manager)
    requires var s := SegsOf(begin, index);
      && Valid(s) && (forall id :: id in drop ==> id in s.active)
      && final == FilterOut(s.active, drop) + NewIds(s.counter, |news|)
    requires var stored := Stored(begin, index, news, sizeOf);
      m == stored.(indices := stored.indices[index := SegsOf(stored, index).(active := final)])
    ensures AllStored(m, index, drop) && Deleted(m, index, drop) == MergedAll(begin, index, drop, news, sizeOf)
  {
    var s := SegsOf(begin, index);
    var w := StoreAll(s, news, sizeOf);
    MergeInPlace(s, drop, news, sizeOf);
    KeptSizes(s, news, sizeOf);
    hide AppendAll, Merged, FilterOut, NewBytes, Valid, StoreAll, Bytes, NewIds;
    assert SegsOf(m, index) == w.(active := final);
    hide SegsOf;
    BytesSame(drop, w.sizes, s.sizes);
    assert Deleted(m, index, drop).indices[index] == Merged(s, drop, news, sizeOf);
  }

  lemma {:induction false} FlushedNone(m: Manager, index: string, sizeOf: SizeOf)
    ensures Flushed(m, index, [], sizeOf) == m.(indices := m.indices[index := SegsOf(m, index)])
  {
  }

  lemma {:induction false} FlushedSnoc(m: Manager, index: string, news: seq<Segment>, seg: Segment, sizeOf: SizeOf)
    ensures var m1 := StoredOne(Flushed(m, index, news, sizeOf), index, seg, sizeOf(seg));
      var s1, id := SegsOf(m1, index), SegsOf(Flushed(m, index, news, sizeOf), index).counter + 1;
      Flushed(m, index, news + [seg], sizeOf) == m1.(indices := m1.indices[index := s1.(active := s1.active + [id])])
  {
    AppendSnoc(SegsOf(m, index), news, seg, sizeOf);
    hide AppendAll, NewBytes;
  }

  lemma {:induction false} FlushDone(h: Bloom.Hash, snap: map<string, Terms>, order: seq<string>, news: seq<Segment>)
    requires Listing(order, snap.Keys) && WrittenFor(h, snap, order, news)
    ensures IsFlush(h, snap, news) && |news| == |snap|
  {
    hide SegmentFor;
    ListingSize(FieldsOf(news), snap.Keys);
    forall k | 0 <= k < |news| ensures news[k].field in snap {
      assert FieldsOf(news)[k] in FieldsOf(news);
    }
  }

  lemma {:induction false} MergeDone(h: Bloom.Hash, s: IndexSegs, max: nat, drop: seq<nat>, order: seq<string>,
                                     news: seq<Segment>)
    requires Valid(s) && 1 <= max < |s.active| && |drop| == |s.active| - max + 1 && NoRepeats(drop)
    requires forall id :: id in drop ==> id in s.active
    requires forall id, kept :: id in drop && kept in s.active && kept !in drop ==> s.sizes[id] <= s.sizes[kept]
    requires Listing(order, ChosenFields(s, drop)) && WrittenFor(h, AllMerged(s, drop), order, news)
    ensures IsMerge(h, s, max, drop, news)
  {
    hide SegmentFor, MergedTerms, ChosenFields;
    forall k | 0 <= k < |news| ensures news[k].field in ChosenFields(s, drop) {
      assert FieldsOf(news)[k] in FieldsOf(news);
    }
  }

  lemma {:induction false} StoredCounter(m: Manager, index: string, news: seq<Segment>, sizeOf: SizeOf)
    ensures SegsOf(Stored(m, index, news, sizeOf), index).counter == SegsOf(m, index).counter + |news|
  {
    ActiveAfterAppendAll(SegsOf(m, index), news, sizeOf);
    hide AppendAll;
  }

  lemma {:induction false} NextNewId(counter: nat, n: nat)
    ensures NewIds(counter, n + 1) == NewIds(counter, n) + [counter + n + 1]
  {
  }

  lemma {:induction false} KeptSizes(s: IndexSegs, news: seq<Segment>, sizeOf: SizeOf)
    requires Valid(s)
    ensures forall id :: id in s.active ==>
              id in StoreAll(s, news, sizeOf).sizes && StoreAll(s, news, sizeOf).sizes[id] == s.sizes[id]
  {
    AppendAllKeeps(s, news, sizeOf);
    hide AppendAll;
  }
}
