/** The engine's write and match operations, loop by loop (internal/search/engine.go, internal/search/scorer.go). */
module Engine {
  import opened Common
  import opened Tokenizer
  import opened InvertedIndex
  import opened IndexRuns
  import SI = SortedIndex

  // ------------------------------------------------------------------
  // The loops over words
  // ------------------------------------------------------------------

  method AddWords(m: Terms, ws: seq<string>, id: string) returns (r: Terms)
    ensures r == AddTerms(m, ws, id)
  {
    r := m;
    for i := 0 to |ws|
      invariant r == AddTerms(m, ws[..i], id)
    {
      r := r[ws[i] := IdsOf(r, ws[i]) + {id}];
      assert ws[..i+1] == ws[..i] + [ws[i]];
    }
    assert ws[..|ws|] == ws;
  }

  method DropWords(m: Terms, ws: seq<string>, id: string) returns (r: Terms)
    requires forall t :: t in m ==> m[t] != {}
    ensures r == DropTerms(m, ws, id)
  {
    r := m;
    for i := 0 to |ws|
      invariant r == DropTerms(m, ws[..i], id)
    {
      assert ws[..i+1] == ws[..i] + [ws[i]];
      var t := ws[i];
      if t in r {
        var ids := r[t] - {id};
        assert t in ws[..i] ==> ids == r[t];
        r := if ids == {} then r - {t} else r[t := ids];
      }
    }
    assert ws[..|ws|] == ws;
  }

  /** Term frequencies. */
  method CountWords(ws: seq<string>) returns (tf: map<string, nat>)
    ensures tf.Keys == Distinct(ws) && forall t :: t in tf ==> tf[t] == Count(ws, t)
  {
    tf := map[];
    for i := 0 to |ws|
      invariant tf.Keys == Distinct(ws[..i])
      invariant forall t :: t in tf ==> tf[t] == Count(ws[..i], t)
    {
      assert ws[..i+1] == ws[..i] + [ws[i]];
      forall t ensures Count(ws[..i+1], t) == Count(ws[..i], t) + (if ws[i] == t then 1 else 0) {
        CountSnoc(ws[..i], ws[i], t);
      }
      CountPositive(ws[..i], ws[i]);
      tf := tf[ws[i] := (if ws[i] in tf then tf[ws[i]] else 0) + 1];
    }
    assert ws[..|ws|] == ws;
  }

  /** onIndexDoc for one field: one new posting per distinct word. */
  method OnIndexDoc(m: Lists, ws: seq<string>, id: string) returns (r: Lists)
    ensures r == AddLists(m, ws, id)
  {
    var tf := CountWords(ws);
    hide Count;
    r := m;
    var todo := tf.Keys;
    while todo != {}
      invariant todo <= tf.Keys && r.Keys == m.Keys + (tf.Keys - todo)
      invariant forall t :: t in r ==> r[t] == if t in tf && t !in todo then WithPosting(m, t, id, tf[t]) else m[t]
      decreases todo
    {
      var tok :| tok in todo;
      var pl := if tok in r then r[tok] else PostingList([], 0);
      assert PostingList(pl.postings + [Posting(id, tf[tok])], pl.df + 1) == WithPosting(m, tok, id, tf[tok]);
      r := r[tok := PostingList(pl.postings + [Posting(id, tf[tok])], pl.df + 1)];
      todo := todo - {tok};
    }
    assert forall t :: t in tf <==> t in ws;
  }

  /** The list of a token with one more posting. */
  function WithPosting(m: Lists, t: string, id: string, tf: nat): PostingList {
    PostingList(PostingsOf(m, t) + [Posting(id, tf)], DFOf(m, t) + 1)
  }

  /** The search and removal loop of onDeleteDoc on one posting list. */
  method RemovePosting(l: PostingList, id: string) returns (r: PostingList)
    ensures r == DropList(l, id)
  {
    var i := 0;
    while i < |l.postings|
      invariant i <= |l.postings| && forall k :: 0 <= k < i ==> l.postings[k].id != id
    {
      if l.postings[i].id == id {
        DropFirstAt(l.postings, i, id);
        return PostingList(l.postings[..i] + l.postings[i+1..], l.df - 1);
      }
      i := i + 1;
    }
    DropFirstAbsent(l.postings, id);
    r := l;
  }

  lemma {:induction false} DropFirstAt(ps: seq<Posting>, i: nat, id: string)
    requires i < |ps| && ps[i].id == id && forall k :: 0 <= k < i ==> ps[k].id != id
    ensures DropFirst(ps, id) == ps[..i] + ps[i+1..]
  {
    if i == 0 {
      assert ps[..0] + ps[1..] == ps[1..];
    } else {
      var tail := ps[1..];
      assert DropFirst(ps, id) == [ps[0]] + DropFirst(tail, id);
      DropFirstAt(tail, i - 1, id);
      hide DropFirst;
      assert tail[..i-1] == ps[1..i] && tail[i..] == ps[i+1..];
      assert ps[..i] == [ps[0]] + ps[1..i];
      assert [ps[0]] + (ps[1..i] + ps[i+1..]) == ps[..i] + ps[i+1..];
    }
  }

  lemma {:induction false} DropFirstAbsent(ps: seq<Posting>, id: string)
    requires forall k :: 0 <= k < |ps| ==> ps[k].id != id
    ensures DropFirst(ps, id) == ps
  {
    if ps != [] {
      DropFirstAbsent(ps[1..], id);
      assert ps == [ps[0]] + ps[1..];
    }
  }

  method OnDeleteDoc(m: Lists, ws: seq<string>, id: string) returns (r: Lists)
    ensures r == DropLists(m, ws, id)
  {
    hide Count, DropList;
    var tf := CountWords(ws);
    r := m;
    var todo := tf.Keys;
    while todo != {}
      invariant todo <= tf.Keys
      invariant r == map t | t in m && (t in tf.Keys - todo ==> DropList(m[t], id).df > 0) ::
                       if t in tf.Keys - todo then DropList(m[t], id) else m[t]
      decreases todo
    {
      var tok :| tok in todo;
      if tok in r {
        var l := RemovePosting(r[tok], id);
        r := if l.df <= 0 then r - {tok} else r[tok := l];
      }
      todo := todo - {tok};
    }
  }

  // ------------------------------------------------------------------
  // The loops over fields
  // ------------------------------------------------------------------

  /** Indexing one more field after others. */
  lemma {:induction false} AddOneMore(st: State, id: string, doc: Doc, f: string, v: Value)
    requires f !in doc
    ensures AddFields(AddFields(st, id, doc), id, map[f := v]) == AddFields(st, id, doc[f := v])
  {
    hide Words, AddTerms, AddLists, SI.Upserted, AddInverted, AddPostings, AddLengths, AddSorted;
    AddOneMoreInverted(st.inverted, id, doc, f, v);
    AddOneMorePostings(st.postings, id, doc, f, v);
    AddOneMoreLengths(st.lengths, id, doc, f, v);
    AddOneMoreSorted(st.sorted, id, doc, f, v);
  }

  lemma {:induction false} OneMoreField(doc: Doc, f: string, v: Value)
    requires f !in doc
    ensures TextFields(doc[f := v]) == TextFields(doc) + TextFields(map[f := v]) && f !in TextFields(doc)
    ensures TextFields(map[f := v]) == if v.Text? then {f} else {}
    ensures KeyedFields(doc[f := v]) == KeyedFields(doc) + KeyedFields(map[f := v]) && f !in KeyedFields(doc)
    ensures KeyedFields(map[f := v]) == if SortKey(v).Some? then {f} else {}
    ensures TextFields(doc) <= doc.Keys && KeyedFields(doc) <= doc.Keys
  {
  }

  lemma {:induction false} AddOneMoreInverted(m: map<string, Terms>, id: string, doc: Doc, f: string, v: Value)
    requires f !in doc
    ensures AddInverted(AddInverted(m, id, doc), id, map[f := v]) == AddInverted(m, id, doc[f := v])
  {
    hide Words, AddTerms;
  }

  lemma {:induction false} AddOneMorePostings(m: map<string, Lists>, id: string, doc: Doc, f: string, v: Value)
    requires f !in doc
    ensures AddPostings(AddPostings(m, id, doc), id, map[f := v]) == AddPostings(m, id, doc[f := v])
  {
    hide Words, AddLists, TextFields, KeyedFields;
    OneMoreField(doc, f, v);
  }

  lemma {:induction false} AddOneMoreLengths(m: map<string, map<string, nat>>, id: string, doc: Doc, f: string,
                                             v: Value)
    requires f !in doc
    ensures AddLengths(AddLengths(m, id, doc), id, map[f := v]) == AddLengths(m, id, doc[f := v])
  {
    hide Words, TextFields, KeyedFields;
    OneMoreField(doc, f, v);
  }

  lemma {:induction false} AddOneMoreSorted(m: map<string, seq<SI.Entry>>, id: string, doc: Doc, f: string, v: Value)
    requires f !in doc
    ensures AddSorted(AddSorted(m, id, doc), id, map[f := v]) == AddSorted(m, id, doc[f := v])
  {
    hide SI.Upserted, TextFields, KeyedFields;
    OneMoreField(doc, f, v);
  }

  lemma {:induction false} AddNone(st: State, id: string)
    ensures AddFields(st, id, map[]) == st
  {
    assert AddInverted(st.inverted, id, map[]) == st.inverted;
    assert AddPostings(st.postings, id, map[]) == st.postings;
    assert AddLengths(st.lengths, id, map[]) == st.lengths;
    assert AddSorted(st.sorted, id, map[]) == st.sorted;
  }

  lemma {:induction false} OneFieldTerms(m: map<string, Terms>, id: string, f: string, v: Value)
    ensures AddInverted(m, id, map[f := v]) == m[f := AddTerms(TermsAt(m, f), Words(v), id)]
  {
    hide Words, AddTerms;
  }

  lemma {:induction false} OneFieldLists(m: map<string, Lists>, id: string, f: string, v: Value)
    ensures AddPostings(m, id, map[f := v]) == if v.Text? then m[f := AddLists(ListsAt(m, f), Words(v), id)] else m
  {
    hide Words, AddLists, ListsAt;
    assert TextFields(map[f := v]) == if v.Text? then {f} else {};
    hide TextFields;
  }

  lemma {:induction false} OneFieldLength(m: map<string, map<string, nat>>, id: string, f: string, v: Value)
    ensures AddLengths(m, id, map[f := v]) == if v.Text? then m[f := LengthsAt(m, f)[id := |Words(v)|]] else m
  {
    hide Words, LengthsAt;
    assert TextFields(map[f := v]) == if v.Text? then {f} else {};
    hide TextFields;
  }

  lemma {:induction false} OneFieldEntries(m: map<string, seq<SI.Entry>>, id: string, f: string, v: Value)
    ensures AddSorted(m, id, map[f := v])
         == if SortKey(v).Some? then m[f := SI.Upserted(EntriesAt(m, f), SI.Entry(SortKey(v).value, id))] else m
  {
    hide SI.Upserted, EntriesAt, SortKey;
    assert KeyedFields(map[f := v]) == if SortKey(v).Some? then {f} else {};
    hide KeyedFields;
  }

  ghost predicate AllSorted(st: State) { forall f :: SI.Sorted(EntriesOf(st, f)) }

  /** indexField followed by the upsert into the sorted index. */
  method IndexField(st: State, id: string, f: string, v: Value) returns (r: State)
    requires AllSorted(st)
    ensures r == AddFields(st, id, map[f := v])
  {
    OneFieldTerms(st.inverted, id, f, v);
    OneFieldLists(st.postings, id, f, v);
    OneFieldLength(st.lengths, id, f, v);
    OneFieldEntries(st.sorted, id, f, v);
    hide AddTerms, AddLists, AddInverted, AddPostings, AddLengths, AddSorted;
    var ws := Words(v);
    var terms := AddWords(TermsOf(st, f), ws, id);
    r := st.(inverted := st.inverted[f := terms]);
    if v.Text? {
      var lists := OnIndexDoc(ListsOf(st, f), ws, id);
      r := r.(postings := st.postings[f := lists], lengths := st.lengths[f := LengthsOf(st, f)[id := |ws|]]);
    }
    if SortKey(v).Some? {
      var index := new SI.Index();
      index.entries := EntriesOf(st, f);
      index.Upsert(SortKey(v).value, id);
      r := r.(sorted := st.sorted[f := index.entries]);
    }
  }

  lemma {:induction false} SortedAfterFields(st: State, id: string, doc: Doc)
    requires AllSorted(st)
    ensures AllSorted(AddFields(st, id, doc))
  {
    forall f ensures SI.Sorted(EntriesOf(AddFields(st, id, doc), f)) {
      if f in KeyedFields(doc) {
        SI.UpsertedSorted(EntriesOf(st, f), SI.Entry(SortKey(doc[f]).value, id));
      } else {
        assert EntriesOf(AddFields(st, id, doc), f) == EntriesOf(st, f);
      }
    }
  }

  /** The loop over the fields of a document, in whatever order the map yields them. */
  method IndexFields(st: State, id: string, doc: Doc) returns (r: State)
    requires AllSorted(st)
    ensures r == AddFields(st, id, doc)
  {
    hide AddFields;
    r := st;
    AddNone(st, id);
    var todo := doc.Keys;
    assert doc - todo == map[];
    while todo != {}
      invariant todo <= doc.Keys
      invariant r == AddFields(st, id, doc - todo)
      decreases todo
    {
      var f :| f in todo;
      SortedAfterFields(st, id, doc - todo);
      AddOneMore(st, id, doc - todo, f, doc[f]);
      assert (doc - todo)[f := doc[f]] == doc - (todo - {f});
      r := IndexField(r, id, f, doc[f]);
      todo := todo - {f};
    }
    assert doc - {} == doc;
  }

  // ------------------------------------------------------------------
  // Deletion
  // ------------------------------------------------------------------

  lemma {:induction false} DropOneMoreInverted(m: map<string, Terms>, id: string, doc: Doc, f: string, v: Value)
    requires f !in doc
    ensures DropInverted(DropInverted(m, id, doc), id, map[f := v]) == DropInverted(m, id, doc[f := v])
  {
    hide Words, DropTerms;
  }

  lemma {:induction false} TextFieldsMore(doc: Doc, f: string, v: Value)
    requires f !in doc
    ensures forall g :: g in TextFields(doc[f := v]) <==> g in TextFields(doc) || g in TextFields(map[f := v])
    ensures forall g :: g in TextFields(map[f := v]) <==> g == f && v.Text?
    ensures f !in TextFields(doc)
  {
  }

  lemma {:induction false} DropOneMorePostings(m: map<string, Lists>, known: set<string>, id: string, doc: Doc,
                                               f: string, v: Value)
    requires f !in doc
    ensures DropPostings(DropPostings(m, known, id, doc), known, id, map[f := v])
         == DropPostings(m, known, id, doc[f := v])
  {
    TextFieldsMore(doc, f, v);
    hide Words, DropLists, TextFields;
  }

  lemma {:induction false} DropOneMoreLengths(m: map<string, map<string, nat>>, known: set<string>, id: string,
                                              doc: Doc, f: string, v: Value)
    requires f !in doc
    ensures DropLengths(DropLengths(m, known, id, doc), known, id, map[f := v])
         == DropLengths(m, known, id, doc[f := v])
  {
    TextFieldsMore(doc, f, v);
    hide TextFields;
  }

  lemma {:induction false} DropOneMore(st: State, id: string, doc: Doc, f: string, v: Value)
    requires f !in doc
    ensures DropFields(DropFields(st, id, doc), id, map[f := v]) == DropFields(st, id, doc[f := v])
  {
    var mid := DropFields(st, id, doc);
    assert mid.inverted.Keys == st.inverted.Keys && mid.postings.Keys == st.postings.Keys;
    hide DropInverted, DropPostings, DropLengths;
    DropOneMoreInverted(st.inverted, id, doc, f, v);
    DropOneMorePostings(st.postings, st.inverted.Keys, id, doc, f, v);
    DropOneMoreLengths(st.lengths, st.inverted.Keys * st.postings.Keys, id, doc, f, v);
  }

  lemma {:induction false} DropNone(st: State, id: string)
    ensures DropFields(st, id, map[]) == st
  {
    assert DropInverted(st.inverted, id, map[]) == st.inverted;
    assert DropPostings(st.postings, st.inverted.Keys, id, map[]) == st.postings;
    assert DropLengths(st.lengths, st.inverted.Keys * st.postings.Keys, id, map[]) == st.lengths;
  }

  lemma {:induction false} OneFieldTermsDropped(m: map<string, Terms>, id: string, f: string, v: Value)
    ensures DropInverted(m, id, map[f := v]) == if f in m then m[f := DropTerms(m[f], Words(v), id)] else m
  {
    hide Words, DropTerms;
  }

  lemma {:induction false} OneFieldListsDropped(m: map<string, Lists>, known: set<string>, id: string, f: string,
                                                v: Value)
    ensures DropPostings(m, known, id, map[f := v])
         == if f in known && f in m && v.Text? then m[f := DropLists(m[f], Words(v), id)] else m
  {
    assert forall g :: g in TextFields(map[f := v]) <==> g == f && v.Text?;
    hide Words, DropLists, TextFields;
  }

  lemma {:induction false} OneFieldLengthDropped(m: map<string, map<string, nat>>, known: set<string>, id: string,
                                                 f: string, v: Value)
    ensures DropLengths(m, known, id, map[f := v]) == if f in known && f in m && v.Text? then m[f := m[f] - {id}] else m
  {
    assert forall g :: g in TextFields(map[f := v]) <==> g == f && v.Text?;
    hide TextFields;
  }

  /** unindexField. */
  method UnindexField(st: State, id: string, f: string, v: Value) returns (r: State)
    requires NoEmptyTerms(st)
    ensures r == DropFields(st, id, map[f := v])
  {
    OneFieldTermsDropped(st.inverted, id, f, v);
    OneFieldListsDropped(st.postings, st.inverted.Keys, id, f, v);
    OneFieldLengthDropped(st.lengths, st.inverted.Keys * st.postings.Keys, id, f, v);
    hide DropTerms, DropLists, DropInverted, DropPostings, DropLengths;
    r := st;
    if f !in st.inverted {
      return;
    }
    var ws := Words(v);
    var terms := DropWords(st.inverted[f], ws, id);
    r := r.(inverted := st.inverted[f := terms]);
    if v.Text? && f in st.postings {
      var lists := OnDeleteDoc(st.postings[f], ws, id);
      r := r.(postings := st.postings[f := lists]);
      if f in st.lengths {
        r := r.(lengths := st.lengths[f := st.lengths[f] - {id}]);
      }
    }
  }

  lemma {:induction false} NoEmptyAfterFields(st: State, id: string, doc: Doc)
    requires NoEmptyTerms(st)
    ensures NoEmptyTerms(DropFields(st, id, doc))
  {
    hide Words;
  }

  method UnindexFields(st: State, id: string, doc: Doc) returns (r: State)
    requires NoEmptyTerms(st)
    ensures r == DropFields(st, id, doc)
  {
    hide DropFields;
    r := st;
    DropNone(st, id);
    var todo := doc.Keys;
    assert doc - todo == map[];
    while todo != {}
      invariant todo <= doc.Keys
      invariant r == DropFields(st, id, doc - todo)
      decreases todo
    {
      var f :| f in todo;
      NoEmptyAfterFields(st, id, doc - todo);
      DropOneMore(st, id, doc - todo, f, doc[f]);
      assert (doc - todo)[f := doc[f]] == doc - (todo - {f});
      r := UnindexField(r, id, f, doc[f]);
      todo := todo - {f};
    }
    assert doc - {} == doc;
  }

  method RemoveFromSorted(m: map<string, seq<SI.Entry>>, id: string) returns (r: map<string, seq<SI.Entry>>)
    requires forall f :: f in m ==> SI.Sorted(m[f])
    ensures r == DropSorted(m, id)
  {
    hide SI.Without, SI.Sorted;
    r := m;
    var todo := m.Keys;
    while todo != {}
      invariant todo <= m.Keys && r.Keys == m.Keys
      invariant forall f :: f in m ==> r[f] == if f in todo then m[f] else SI.Without(m[f], id)
      decreases todo
    {
      var f :| f in todo;
      var index := new SI.Index();
      index.entries := r[f];
      index.RemoveDoc(id);
      r := r[f := index.entries];
      todo := todo - {f};
    }
  }

  // ------------------------------------------------------------------
  // The engine
  // ------------------------------------------------------------------

  lemma {:induction false} EmptyIsValid()
    ensures AllSorted(EMPTY) && NoEmptyTerms(EMPTY)
  {
  }

  lemma {:induction false} UnionSnoc(terms: Terms, words: seq<string>, w: string)
    ensures Union(terms, words + [w]) == Union(terms, words) + (if w in terms then terms[w] else {})
  {
    assert w in words + [w] && forall t :: t in words + [w] <==> t in words || t == w;
    var a, b := Union(terms, words + [w]), Union(terms, words) + IdsOf(terms, w);
    forall id ensures id in a <==> id in b {
      if id in IdsOf(terms, w) {
        assert id in a;
      }
      if id in Union(terms, words) {
        var t :| t in words && id in IdsOf(terms, t);
        assert t in words + [w];
      }
    }
  }

  class SearchEngine {
    var indexes: map<string, State>

    constructor ()
      ensures indexes == map[]
    {
      indexes := map[];
    }

    /** The state of an index; one never written is empty. */
    function StateOf(index: string): State
      reads this
    {
      if index in indexes then indexes[index] else EMPTY
    }

    /** Sorted lists are sorted and no token is without documents: holds of a new engine and is kept by every write. */
    ghost predicate Valid()
      reads this
    {
      forall i :: i in indexes ==> AllSorted(indexes[i]) && NoEmptyTerms(indexes[i])
    }

    method IndexDoc(index: string, id: string, doc: Doc)
      requires Valid()
      modifies this
      ensures Valid()
      ensures indexes == old(indexes)[index := InvertedIndex.IndexDoc(old(StateOf(index)), id, doc)]
    {
      var st := StateOf(index);
      EmptyIsValid();
      NoEmptyAfter(st, id, doc);
      st := st.(docs := st.docs[id := doc]);
      assert forall f :: EntriesOf(st, f) == EntriesOf(StateOf(index), f);
      SortedAfterFields(st, id, doc);
      hide AddFields;
      var r := IndexFields(st, id, doc);
      indexes := indexes[index := r];
    }

    method DeleteDoc(index: string, id: string)
      requires Valid()
      modifies this
      ensures Valid()
      ensures indexes == if index in old(indexes)
                         then old(indexes)[index := InvertedIndex.DeleteDoc(old(StateOf(index)), id)] else old(indexes)
    {
      if index !in indexes {
        return;
      }
      var st := indexes[index];
      NoEmptyAfter(st, id, map[]);
      if id !in st.docs {
        assert indexes == indexes[index := st];
        return;
      }
      var r := UnindexFields(st, id, st.docs[id]);
      forall f | f in st.sorted ensures SI.Sorted(st.sorted[f]) {
        assert SI.Sorted(EntriesOf(st, f));
      }
      var sorted := RemoveFromSorted(st.sorted, id);
      r := r.(docs := st.docs - {id}, sorted := sorted);
      forall f ensures SI.Sorted(EntriesOf(r, f)) {
        EntriesAfterDelete(st, id, f);
        SI.WithoutSorted(EntriesOf(st, f), id);
      }
      indexes := indexes[index := r];
    }

    method DeleteIndex(index: string)
      requires Valid()
      modifies this
      ensures Valid() && indexes == old(indexes) - {index}
    {
      indexes := indexes - {index};
    }

    method MatchDocsTokens(index: string, field: string, value: string) returns (ids: set<string>)
      ensures ids == MatchWords(StateOf(index), field, value)
    {
      ids := {};
      var terms := TermsOf(StateOf(index), field);
      var words := Tokenize(value);
      hide Tokenize, IdsOf;
      for i := 0 to |words|
        invariant ids == Union(terms, words[..i])
      {
        UnionSnoc(terms, words[..i], words[i]);
        assert words[..i+1] == words[..i] + [words[i]];
        if words[i] in terms {
          ids := ids + terms[words[i]];
        }
      }
      assert words[..|words|] == words;
    }
  }
}
