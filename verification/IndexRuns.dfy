/** Runs of index and delete operations on one index (internal/search/engine.go, internal/search/scorer.go). */
module IndexRuns {
  import opened Collections
  import opened Common
  import opened Tokenizer
  import opened InvertedIndex
  import SI = SortedIndex

  // ------------------------------------------------------------------
  // Pointwise effect of the two operations
  // ------------------------------------------------------------------

  predicate DocHas(doc: Doc, f: string, t: string) { f in doc && t in Words(doc[f]) }

  predicate DocHasText(doc: Doc, f: string) { f in doc && doc[f].Text? }

  lemma {:induction false} DocsAfter(st: State, id: string, doc: Doc)
    ensures IndexDoc(st, id, doc).docs == st.docs[id := doc]
    ensures DeleteDoc(st, id).docs == st.docs - {id}
  {
  }

  lemma {:induction false} HitsAfterIndex(st: State, id: string, doc: Doc, f: string, t: string)
    ensures Hits(IndexDoc(st, id, doc), f, t) == Hits(st, f, t) + (if DocHas(doc, f, t) then {id} else {})
  {
  }

  lemma {:induction false} HitsAfterDelete(st: State, id: string, f: string, t: string)
    ensures Hits(DeleteDoc(st, id), f, t)
         == Hits(st, f, t) - (if id in st.docs && DocHas(st.docs[id], f, t) then {id} else {})
  {
  }

  lemma {:induction false} TermsAfterIndex(st: State, id: string, doc: Doc, f: string)
    ensures TermsOf(IndexDoc(st, id, doc), f)
         == if f in doc then AddTerms(TermsOf(st, f), Words(doc[f]), id) else TermsOf(st, f)
  {
    hide Words, AddTerms, AddLists, SortKey;
  }

  lemma {:induction false} TermsAfterDelete(st: State, id: string, f: string)
    ensures TermsOf(DeleteDoc(st, id), f)
         == if id in st.docs && f in st.docs[id] then DropTerms(TermsOf(st, f), Words(st.docs[id][f]), id)
            else TermsOf(st, f)
  {
    hide Words, DropLists, SI.Without;
  }

  lemma {:induction false} ListsAfterIndex(st: State, id: string, doc: Doc, f: string)
    ensures ListsOf(IndexDoc(st, id, doc), f)
         == if DocHasText(doc, f) then AddLists(ListsOf(st, f), Words(doc[f]), id) else ListsOf(st, f)
  {
    hide Words, AddTerms, AddLists, SortKey;
  }

  lemma {:induction false} ListsAfterDelete(st: State, id: string, f: string)
    requires FieldsNested(st)
    ensures ListsOf(DeleteDoc(st, id), f)
         == if id in st.docs && DocHasText(st.docs[id], f) then DropLists(ListsOf(st, f), Words(st.docs[id][f]), id)
            else ListsOf(st, f)
  {
    hide Words, DropTerms, SI.Without;
  }

  lemma {:induction false} NoEmptyAfter(st: State, id: string, doc: Doc)
    requires NoEmptyTerms(st)
    ensures NoEmptyTerms(IndexDoc(st, id, doc)) && NoEmptyTerms(DeleteDoc(st, id))
  {
    hide Words;
  }

  lemma {:induction false} PostingsAfterIndex(st: State, id: string, doc: Doc, f: string, t: string)
    ensures PostingsOf(ListsOf(IndexDoc(st, id, doc), f), t)
         == PostingsOf(ListsOf(st, f), t)
            + (if DocHasText(doc, f) && DocHas(doc, f, t) then [Posting(id, Count(Words(doc[f]), t))] else [])
  {
    hide Words, Count;
  }

  lemma {:induction false} PostingsAfterDelete(st: State, id: string, f: string, t: string)
    requires FieldsNested(st) && FrequenciesExact(st)
    ensures PostingsOf(ListsOf(DeleteDoc(st, id), f), t)
         == if id in st.docs && DocHasText(st.docs[id], f) && DocHas(st.docs[id], f, t)
            then DropFirst(PostingsOf(ListsOf(st, f), t), id) else PostingsOf(ListsOf(st, f), t)
  {
    hide Words;
  }

  lemma {:induction false} EntriesAfterIndex(st: State, id: string, doc: Doc, f: string)
    ensures EntriesOf(IndexDoc(st, id, doc), f)
         == if f in doc && SortKey(doc[f]).Some?
            then SI.Upserted(EntriesOf(st, f), SI.Entry(SortKey(doc[f]).value, id)) else EntriesOf(st, f)
  {
  }

  lemma {:induction false} EntriesAfterDelete(st: State, id: string, f: string)
    ensures EntriesOf(DeleteDoc(st, id), f)
         == if id in st.docs then SI.Without(EntriesOf(st, f), id) else EntriesOf(st, f)
  {
  }

  lemma {:induction false} LengthsAfterIndex(st: State, id: string, doc: Doc, f: string)
    ensures LengthsOf(IndexDoc(st, id, doc), f)
         == if DocHasText(doc, f) then LengthsOf(st, f)[id := |Words(doc[f])|] else LengthsOf(st, f)
  {
  }

  lemma {:induction false} LengthsAfterDelete(st: State, id: string, f: string)
    requires FieldsNested(st)
    ensures LengthsOf(DeleteDoc(st, id), f)
         == if id in st.docs && DocHasText(st.docs[id], f) then LengthsOf(st, f) - {id} else LengthsOf(st, f)
  {
  }

  // ------------------------------------------------------------------
  // Indexing a new id and deleting keep the index exact
  // ------------------------------------------------------------------

  lemma {:induction false} NestedAfterIndex(st: State, id: string, doc: Doc)
    requires FieldsNested(st)
    ensures FieldsNested(IndexDoc(st, id, doc))
  {
  }

  lemma {:induction false} NestedAfterDelete(st: State, id: string)
    requires FieldsNested(st)
    ensures FieldsNested(DeleteDoc(st, id))
  {
  }

  lemma {:induction false} FrequenciesAfterIndex(st: State, id: string, doc: Doc)
    requires FrequenciesExact(st)
    ensures FrequenciesExact(IndexDoc(st, id, doc))
  {
    var m := st.postings;
    var m': map<string, Lists> := IndexDoc(st, id, doc).postings;
    assert m' == AddPostings(m, id, doc);
    hide IndexDoc, Words, Count;
    forall f, t | f in m' && t in m'[f] ensures m'[f][t].df == |m'[f][t].postings| > 0 {
      if f in TextFields(doc) {
        assert m'[f] == AddLists(ListsAt(m, f), Words(doc[f]), id);
      }
    }
  }

  lemma {:induction false} FrequenciesAfterDelete(st: State, id: string)
    requires FrequenciesExact(st)
    ensures FrequenciesExact(DeleteDoc(st, id))
  {
    hide Words;
  }

  lemma {:induction false} InvertedAfterIndex(st: State, id: string, doc: Doc)
    requires InvertedExact(st) && id !in st.docs
    ensures InvertedExact(IndexDoc(st, id, doc))
  {
    hide IndexDoc, Words, NoEmptyTerms;
    var st' := IndexDoc(st, id, doc);
    DocsAfter(st, id, doc);
    NoEmptyAfter(st, id, doc);
    forall f, t, x ensures x in Hits(st', f, t) <==> HasWord(st'.docs, x, f, t) {
      HitsAfterIndex(st, id, doc, f, t);
      assert x in Hits(st, f, t) <==> HasWord(st.docs, x, f, t);
    }
  }

  lemma {:induction false} InvertedAfterDelete(st: State, id: string)
    requires InvertedExact(st)
    ensures InvertedExact(DeleteDoc(st, id))
  {
    hide DeleteDoc, Words, NoEmptyTerms;
    var st' := DeleteDoc(st, id);
    DocsAfter(st, id, map[]);
    NoEmptyAfter(st, id, map[]);
    forall f, t, x ensures x in Hits(st', f, t) <==> HasWord(st'.docs, x, f, t) {
      HitsAfterDelete(st, id, f, t);
      assert x in Hits(st, f, t) <==> HasWord(st.docs, x, f, t);
    }
  }

  /** No text field of the stored document has a word. */
  predicate NoTextWords(st: State, id: string) {
    id in st.docs ==> forall f :: f in st.docs[id] && st.docs[id][f].Text? ==> Words(st.docs[id][f]) == []
  }

  lemma {:induction false} PostingsAtAfterIndex(st: State, id: string, doc: Doc, f: string, t: string)
    requires PostingsExactAt(st, f, t) && (HasText(st.docs, id, f) ==> t !in Words(st.docs[id][f]))
    ensures PostingsExactAt(IndexDoc(st, id, doc), f, t)
  {
    hide IndexDoc, Words, Count;
    DocsAfter(st, id, doc);
    PostingsAfterIndex(st, id, doc, f, t);
    hide ListsOf, PostingsOf;
    var ps := PostingsOf(ListsOf(st, f), t);
    forall p | p in ps ensures p.id != id {
      assert Posting(p.id, p.tf) in ps;
      if p.id == id {
        CountPositive(Words(st.docs[id][f]), t);
      }
    }
    if DocHasText(doc, f) {
      CountPositive(Words(doc[f]), t);
    }
  }

  lemma {:induction false} PostingsExactAfterIndex(st: State, id: string, doc: Doc)
    requires PostingsExact(st) && NoTextWords(st, id)
    ensures PostingsExact(IndexDoc(st, id, doc))
  {
    FrequenciesAfterIndex(st, id, doc);
    hide PostingsExactAt, FrequenciesExact;
    forall f, t ensures PostingsExactAt(IndexDoc(st, id, doc), f, t) {
      PostingsAtAfterIndex(st, id, doc, f, t);
    }
  }

  lemma {:induction false} PostingsAtAfterDelete(st: State, id: string, f: string, t: string)
    requires PostingsExactAt(st, f, t) && FieldsNested(st) && FrequenciesExact(st)
    ensures PostingsExactAt(DeleteDoc(st, id), f, t)
  {
    hide DeleteDoc, Words, Count, FrequenciesExact;
    DocsAfter(st, id, map[]);
    PostingsAfterDelete(st, id, f, t);
    var ps := PostingsOf(ListsOf(st, f), t);
    forall p ensures p in DropFirst(ps, id) <==> p in ps && p.id != id {
      DropFirstMembers(ps, id, p);
    }
    DropFirstMembers(ps, id, Posting(id, 0));
    if id in st.docs && DocHasText(st.docs[id], f) {
      CountPositive(Words(st.docs[id][f]), t);
    }
  }

  lemma {:induction false} PostingsExactAfterDelete(st: State, id: string)
    requires PostingsExact(st) && FieldsNested(st)
    ensures PostingsExact(DeleteDoc(st, id))
  {
    FrequenciesAfterDelete(st, id);
    hide PostingsExactAt, FrequenciesExact;
    forall f, t ensures PostingsExactAt(DeleteDoc(st, id), f, t) {
      PostingsAtAfterDelete(st, id, f, t);
    }
  }

  lemma {:induction false} LengthsExactAfterIndex(st: State, id: string, doc: Doc)
    requires LengthsExact(st) && id !in st.docs
    ensures LengthsExact(IndexDoc(st, id, doc))
  {
    hide IndexDoc, Words;
    DocsAfter(st, id, doc);
    forall f {
      LengthsAfterIndex(st, id, doc, f);
    }
  }

  lemma {:induction false} LengthsExactAfterDelete(st: State, id: string)
    requires LengthsExact(st) && FieldsNested(st)
    ensures LengthsExact(DeleteDoc(st, id))
  {
    hide DeleteDoc, Words;
    DocsAfter(st, id, map[]);
    forall f {
      LengthsAfterDelete(st, id, f);
    }
  }

  /** The new entry joins the old ones. */
  lemma {:induction false} EntriesGrow(st: State, id: string, doc: Doc, f: string)
    requires SI.Sorted(EntriesOf(st, f))
    ensures var es, es' := EntriesOf(st, f), EntriesOf(IndexDoc(st, id, doc), f);
      && SI.Sorted(es')
      && forall v, x :: SI.Entry(v, x) in es' <==>
           SI.Entry(v, x) in es || (x == id && f in doc && SortKey(doc[f]) == Some(v))
  {
    hide IndexDoc, SortKey, SI.Sorted, SI.Upserted;
    EntriesAfterIndex(st, id, doc, f);
    if f in doc && SortKey(doc[f]).Some? {
      var e := SI.Entry(SortKey(doc[f]).value, id);
      SI.UpsertedSorted(EntriesOf(st, f), e);
      forall x ensures x in SI.Upserted(EntriesOf(st, f), e) <==> x in EntriesOf(st, f) || x == e {
        SI.UpsertedMembers(EntriesOf(st, f), e, x);
      }
    }
  }

  lemma {:induction false} EntriesExactAfterIndex(st: State, id: string, doc: Doc)
    requires EntriesExact(st) && id !in st.docs
    ensures EntriesExact(IndexDoc(st, id, doc))
  {
    var st' := IndexDoc(st, id, doc);
    DocsAfter(st, id, doc);
    hide IndexDoc, SortKey, EntriesOf, SI.Sorted;
    forall f
      ensures SI.Sorted(EntriesOf(st', f))
      ensures forall v, x :: SI.Entry(v, x) in EntriesOf(st', f)
                <==> x in st'.docs && f in st'.docs[x] && SortKey(st'.docs[x][f]) == Some(v)
    {
      EntriesGrow(st, id, doc, f);
    }
  }

  lemma {:induction false} EntriesExactAfterDelete(st: State, id: string)
    requires EntriesExact(st)
    ensures EntriesExact(DeleteDoc(st, id))
  {
    var st' := DeleteDoc(st, id);
    forall f
      ensures SI.Sorted(EntriesOf(st', f))
      ensures forall v, x :: SI.Entry(v, x) in EntriesOf(st', f)
                <==> x in st'.docs && f in st'.docs[x] && SortKey(st'.docs[x][f]) == Some(v)
    {
      EntriesAfterDelete(st, id, f);
      SI.WithoutSorted(EntriesOf(st, f), id);
      forall x ensures x in SI.Without(EntriesOf(st, f), id) <==> x in EntriesOf(st, f) && x.id != id {
        SI.WithoutMembers(EntriesOf(st, f), id, x);
      }
    }
  }

  lemma {:induction false} IndexKeepsExact(st: State, id: string, doc: Doc)
    requires Exact(st) && id !in st.docs
    ensures Exact(IndexDoc(st, id, doc))
  {
    hide InvertedExact, PostingsExact, LengthsExact, EntriesExact, FieldsNested;
    InvertedAfterIndex(st, id, doc);
    PostingsExactAfterIndex(st, id, doc);
    LengthsExactAfterIndex(st, id, doc);
    EntriesExactAfterIndex(st, id, doc);
    NestedAfterIndex(st, id, doc);
  }

  lemma {:induction false} DeleteKeepsExact(st: State, id: string)
    requires Exact(st)
    ensures Exact(DeleteDoc(st, id))
  {
    hide InvertedExact, PostingsExact, LengthsExact, EntriesExact, FieldsNested;
    InvertedAfterDelete(st, id);
    PostingsExactAfterDelete(st, id);
    LengthsExactAfterDelete(st, id);
    EntriesExactAfterDelete(st, id);
    NestedAfterDelete(st, id);
  }

  // ------------------------------------------------------------------
  // Overwriting keeps the index complete
  // ------------------------------------------------------------------

  lemma {:induction false} IndexKeepsComplete(st: State, id: string, doc: Doc)
    requires Complete(st)
    ensures Complete(IndexDoc(st, id, doc))
  {
    var st' := IndexDoc(st, id, doc);
    FrequenciesAfterIndex(st, id, doc);
    NestedAfterIndex(st, id, doc);
    DocsAfter(st, id, doc);
    hide Words, IndexDoc, SortKey, FrequenciesExact, FieldsNested, EntriesOf, SI.Sorted;
    forall f, t ensures forall x :: HasWord(st'.docs, x, f, t) ==> x in Hits(st', f, t) {
      HitsAfterIndex(st, id, doc, f, t);
      assert forall x :: HasWord(st.docs, x, f, t) ==> x in Hits(st, f, t);
    }
    forall f
      ensures SI.Sorted(EntriesOf(st', f))
      ensures forall v, x :: x in st'.docs && f in st'.docs[x] && SortKey(st'.docs[x][f]) == Some(v) ==>
                SI.Entry(v, x) in EntriesOf(st', f)
    {
      EntriesGrow(st, id, doc, f);
    }
  }

  lemma {:induction false} DeleteKeepsComplete(st: State, id: string)
    requires Complete(st)
    ensures Complete(DeleteDoc(st, id))
  {
    hide Words;
    var st' := DeleteDoc(st, id);
    FrequenciesAfterDelete(st, id);
    NestedAfterDelete(st, id);
    forall f, t ensures forall x :: HasWord(st'.docs, x, f, t) ==> x in Hits(st', f, t) {
      HitsAfterDelete(st, id, f, t);
      assert forall x :: HasWord(st.docs, x, f, t) ==> x in Hits(st, f, t);
    }
    forall f
      ensures SI.Sorted(EntriesOf(st', f))
      ensures forall v, x :: x in st'.docs && f in st'.docs[x] && SortKey(st'.docs[x][f]) == Some(v) ==>
                SI.Entry(v, x) in EntriesOf(st', f)
    {
      EntriesAfterDelete(st, id, f);
      SI.WithoutSorted(EntriesOf(st, f), id);
      forall x ensures x in SI.Without(EntriesOf(st, f), id) <==> x in EntriesOf(st, f) && x.id != id {
        SI.WithoutMembers(EntriesOf(st, f), id, x);
      }
    }
  }

  // ------------------------------------------------------------------
  // Runs
  // ------------------------------------------------------------------

  datatype Op = Put(id: string, doc: Doc) | Remove(id: string)

  function Apply(st: State, op: Op): State {
    match op
    case Put(id, doc) => IndexDoc(st, id, doc)
    case Remove(id) => DeleteDoc(st, id)
  }

  /** The state an empty index reaches. */
  function Run(ops: seq<Op>): State {
    if ops == [] then EMPTY else Apply(Run(ops[..|ops|-1]), ops[|ops|-1])
  }

  /** Only ids that are not stored at that moment are indexed. */
  predicate NoOverwrite(ops: seq<Op>) {
    ops == [] ||
    var n := |ops| - 1;
    NoOverwrite(ops[..n]) && (ops[n].Put? ==> ops[n].id !in Run(ops[..n]).docs)
  }

  lemma {:induction false} RunsWithoutOverwriteAreExact(ops: seq<Op>)
    requires NoOverwrite(ops)
    ensures Exact(Run(ops))
  {
    if ops != [] {
      var n := |ops| - 1;
      RunsWithoutOverwriteAreExact(ops[..n]);
      hide Exact, IndexDoc, DeleteDoc;
      match ops[n]
      case Put(id, doc) => IndexKeepsExact(Run(ops[..n]), id, doc);
      case Remove(id) => DeleteKeepsExact(Run(ops[..n]), id);
    }
  }

  lemma {:induction false} AllRunsAreComplete(ops: seq<Op>)
    ensures Complete(Run(ops))
  {
    if ops != [] {
      var n := |ops| - 1;
      AllRunsAreComplete(ops[..n]);
      hide Complete, IndexDoc, DeleteDoc;
      match ops[n]
      case Put(id, doc) => IndexKeepsComplete(Run(ops[..n]), id, doc);
      case Remove(id) => DeleteKeepsComplete(Run(ops[..n]), id);
    }
  }

  // ------------------------------------------------------------------
  // What an overwrite does
  // ------------------------------------------------------------------

  /** Overwriting keeps the inverted map exact if and only if the new document has every word of the old one, field by
      field. */
  lemma {:induction false} OverwriteExactlyWhen(st: State, id: string, doc: Doc)
    requires InvertedExact(st) && id in st.docs
    ensures InvertedExact(IndexDoc(st, id, doc)) <==> forall f, t :: HasWord(st.docs, id, f, t) ==> DocHas(doc, f, t)
  {
    hide IndexDoc, Words, NoEmptyTerms;
    DocsAfter(st, id, doc);
    NoEmptyAfter(st, id, doc);
    var st' := IndexDoc(st, id, doc);
    forall f, t, x ensures x in Hits(st', f, t) <==> HasWord(st.docs, x, f, t) || (x == id && DocHas(doc, f, t)) {
      HitsAfterIndex(st, id, doc, f, t);
      assert x in Hits(st, f, t) <==> HasWord(st.docs, x, f, t);
    }
    if InvertedExact(st') {
      forall f, t | HasWord(st.docs, id, f, t) ensures DocHas(doc, f, t) {
        assert id in Hits(st', f, t);
      }
    }
  }

  /** The postings survive an overwrite if and only if the old document had no words in text fields: its postings are
      not withdrawn. */
  lemma {:induction false} OverwritePostingsExactlyWhen(st: State, id: string, doc: Doc)
    requires PostingsExact(st) && id in st.docs
    ensures PostingsExact(IndexDoc(st, id, doc)) <==> NoTextWords(st, id)
  {
    var st' := IndexDoc(st, id, doc);
    if NoTextWords(st, id) {
      PostingsExactAfterIndex(st, id, doc);
    } else {
      var f :| f in st.docs[id] && st.docs[id][f].Text? && Words(st.docs[id][f]) != [];
      LeftoverPosting(st, id, doc, f);
    }
  }

  lemma {:induction false} LeftoverPosting(st: State, id: string, doc: Doc, f: string)
    requires PostingsExact(st) && HasText(st.docs, id, f) && Words(st.docs[id][f]) != []
    ensures !PostingsExact(IndexDoc(st, id, doc))
  {
    var st' := IndexDoc(st, id, doc);
    var t := Words(st.docs[id][f])[0];
    var prior := Posting(id, Count(Words(st.docs[id][f]), t));
    var ps, ps' := PostingsOf(ListsOf(st, f), t), PostingsOf(ListsOf(st', f), t);
    assert prior in ps by {
      CountPositive(Words(st.docs[id][f]), t);
      assert PostingsExactAt(st, f, t);
    }
    hide PostingsExact, IndexDoc, Words, Count, ListsOf, PostingsOf;
    DocsAfter(st, id, doc);
    PostingsAfterIndex(st, id, doc, f, t);
    var k :| 0 <= k < |ps| && ps[k] == prior;
    assert ps'[k] == prior && prior in ps';
    if DocHasText(doc, f) {
      // if the word is still there, the document now has two postings
      CountPositive(Words(doc[f]), t);
      assert DocHas(doc, f, t) ==> ps'[k].id == ps'[|ps|].id;
    }
    NotExactAt(st', f, t);
  }

  lemma {:induction false} NotExactAt(st: State, f: string, t: string)
    ensures PostingsExact(st) ==> PostingsExactAt(st, f, t)
  {
  }

  /** The lengths survive an overwrite if and only if no text field disappears. */
  lemma {:induction false} OverwriteLengthsExactlyWhen(st: State, id: string, doc: Doc)
    requires LengthsExact(st) && id in st.docs
    ensures LengthsExact(IndexDoc(st, id, doc)) <==> forall f :: HasText(st.docs, id, f) ==> DocHasText(doc, f)
  {
    var st' := IndexDoc(st, id, doc);
    hide IndexDoc, Words, LengthsOf;
    DocsAfter(st, id, doc);
    forall f ensures forall x :: x in LengthsOf(st', f) <==> HasText(st.docs, x, f) || (x == id && DocHasText(doc, f))
    {
      LengthsAfterIndex(st, id, doc, f);
    }
    if LengthsExact(st') {
      forall f | HasText(st.docs, id, f) ensures DocHasText(doc, f) {
        assert id in LengthsOf(st', f) <==> HasText(st'.docs, id, f);
      }
    } else if forall f :: HasText(st.docs, id, f) ==> DocHasText(doc, f) {
      forall f, x | x in LengthsOf(st', f) ensures LengthsOf(st', f)[x] == |Words(st'.docs[x][f])| {
        LengthsAfterIndex(st, id, doc, f);
      }
    }
  }

  /** The document keeps this sort key. */
  predicate KeepsKey(before: Doc, doc: Doc, f: string) {
    f in before && SortKey(before[f]).Some? ==> f in doc && SortKey(doc[f]) == SortKey(before[f])
  }

  /** The sorted entries survive an overwrite if and only if no sort key disappears or changes. */
  lemma {:induction false} OverwriteEntriesExactlyWhen(st: State, id: string, doc: Doc)
    requires EntriesExact(st) && id in st.docs
    ensures EntriesExact(IndexDoc(st, id, doc)) <==> forall f :: KeepsKey(st.docs[id], doc, f)
  {
    var st' := IndexDoc(st, id, doc);
    DocsAfter(st, id, doc);
    hide IndexDoc, SortKey, EntriesOf, SI.Sorted, KeepsKey;
    forall f ensures SI.Sorted(EntriesOf(st', f)) && (EntriesExactAt(st', f) <==> KeepsKey(st.docs[id], doc, f)) {
      OverwriteEntriesAt(st, id, doc, f);
    }
    if EntriesExact(st') {
      forall f ensures KeepsKey(st.docs[id], doc, f) {
        assert EntriesExactAt(st', f);
      }
    }
    assert EntriesExact(st') <==> forall f :: EntriesExactAt(st', f);
  }

  predicate DocHasKey(doc: Doc, f: string, v: string) { f in doc && SortKey(doc[f]) == Some(v) }

  ghost predicate EntriesExactAt(st: State, f: string) {
    forall v, id :: SI.Entry(v, id) in EntriesOf(st, f) <==> id in st.docs && DocHasKey(st.docs[id], f, v)
  }

  lemma {:induction false} KeepsKeyMeans(before: Doc, doc: Doc, f: string)
    ensures KeepsKey(before, doc, f) <==> forall v :: DocHasKey(before, f, v) ==> DocHasKey(doc, f, v)
  {
    if f in before && SortKey(before[f]).Some? {
      assert DocHasKey(before, f, SortKey(before[f]).value);
    }
  }

  lemma {:induction false} EntriesOverwritten(es: seq<SI.Entry>, es': seq<SI.Entry>, docs: map<string, Doc>, id: string,
                                              doc: Doc, f: string)
    requires id in docs && forall v, x :: SI.Entry(v, x) in es <==> x in docs && DocHasKey(docs[x], f, v)
    requires forall v, x :: SI.Entry(v, x) in es' <==> SI.Entry(v, x) in es || (x == id && DocHasKey(doc, f, v))
    ensures (forall v, x :: SI.Entry(v, x) in es' <==> x in docs[id := doc] && DocHasKey(docs[id := doc][x], f, v)) <==>
            forall v :: DocHasKey(docs[id], f, v) ==> DocHasKey(doc, f, v)
  {
    hide DocHasKey;
    if forall v, x :: SI.Entry(v, x) in es' <==> x in docs[id := doc] && DocHasKey(docs[id := doc][x], f, v) {
      forall v | DocHasKey(docs[id], f, v) ensures DocHasKey(doc, f, v) {
        assert SI.Entry(v, id) in es';
      }
    }
  }

  lemma {:induction false} OverwriteEntriesAt(st: State, id: string, doc: Doc, f: string)
    requires EntriesExact(st) && id in st.docs
    ensures SI.Sorted(EntriesOf(IndexDoc(st, id, doc), f))
    ensures EntriesExactAt(IndexDoc(st, id, doc), f) <==> KeepsKey(st.docs[id], doc, f)
  {
    var st' := IndexDoc(st, id, doc);
    EntriesGrow(st, id, doc, f);
    DocsAfter(st, id, doc);
    KeepsKeyMeans(st.docs[id], doc, f);
    hide IndexDoc, EntriesOf, KeepsKey, SI.Sorted, SortKey;
    EntriesOverwritten(EntriesOf(st, f), EntriesOf(st', f), st.docs, id, doc, f);
  }

  /** An overwrite keeps an exact index exact if and only if the old document had no words in text fields, and the new
      one has all its other words, all its text fields and its sort keys. */
  lemma {:induction false} OverwriteKeepsExactlyWhen(st: State, id: string, doc: Doc)
    requires Exact(st) && id in st.docs
    ensures Exact(IndexDoc(st, id, doc)) <==>
            && (forall f, t :: HasWord(st.docs, id, f, t) ==> DocHas(doc, f, t))
            && NoTextWords(st, id)
            && (forall f :: HasText(st.docs, id, f) ==> DocHasText(doc, f))
            && (forall f :: KeepsKey(st.docs[id], doc, f))
  {
    OverwriteExactlyWhen(st, id, doc);
    OverwritePostingsExactlyWhen(st, id, doc);
    OverwriteLengthsExactlyWhen(st, id, doc);
    OverwriteEntriesExactlyWhen(st, id, doc);
    NestedAfterIndex(st, id, doc);
    hide InvertedExact, PostingsExact, LengthsExact, EntriesExact, FieldsNested, IndexDoc, HasWord, DocHas, NoTextWords;
  }

  /** Deleting an overwritten document leaves it among the hits of exactly the words the overwrite dropped. */
  lemma {:induction false} StaleHitsAfterDelete(st: State, id: string, doc: Doc, f: string, t: string)
    requires InvertedExact(st)
    ensures id in Hits(DeleteDoc(IndexDoc(st, id, doc), id), f, t) <==> HasWord(st.docs, id, f, t) && !DocHas(doc, f, t)
  {
    hide Words;
    HitsAfterIndex(st, id, doc, f, t);
    HitsAfterDelete(IndexDoc(st, id, doc), id, f, t);
    assert id in Hits(st, f, t) <==> HasWord(st.docs, id, f, t);
  }

  // ------------------------------------------------------------------
  // Delete undoes index
  // ------------------------------------------------------------------

  /** Equal, except that one may know fields that hold nothing. */
  ghost predicate SameIndex(a: State, b: State) {
    && a.docs == b.docs
    && forall f ::
      TermsOf(a, f) == TermsOf(b, f) && ListsOf(a, f) == ListsOf(b, f)
      && LengthsOf(a, f) == LengthsOf(b, f) && EntriesOf(a, f) == EntriesOf(b, f)
  }

  lemma {:induction false} TermsUndone(m: Terms, ws: seq<string>, id: string)
    requires forall t :: t in m ==> m[t] != {} && id !in m[t]
    ensures DropTerms(AddTerms(m, ws, id), ws, id) == m
  {
    var r := DropTerms(AddTerms(m, ws, id), ws, id);
    forall t ensures t in r <==> t in m {
      assert IdsOf(m, t) + {id} - {id} == IdsOf(m, t);
    }
    forall t | t in m ensures r[t] == m[t] {
      assert IdsOf(m, t) + {id} - {id} == IdsOf(m, t);
    }
  }

  lemma {:induction false} ListsUndone(m: Lists, ws: seq<string>, id: string)
    requires forall t :: t in m ==> m[t].df == |m[t].postings| > 0
    requires forall t, p :: t in m && p in m[t].postings ==> p.id != id
    ensures DropLists(AddLists(m, ws, id), ws, id) == m
  {
    var r := DropLists(AddLists(m, ws, id), ws, id);
    forall t | t in ws
      ensures DropFirst(PostingsOf(m, t) + [Posting(id, Count(ws, t))], id) == PostingsOf(m, t)
    {
      DropFirstUndoesAppend(PostingsOf(m, t), Posting(id, Count(ws, t)));
    }
    assert forall t :: t in r <==> t in m;
    assert forall t :: t in m ==> r[t] == m[t];
  }

  /** Deleting a document just indexed under a new id restores the index. */
  lemma {:induction false} DeleteUndoesIndex(st: State, id: string, doc: Doc)
    requires Exact(st) && id !in st.docs
    ensures SameIndex(DeleteDoc(IndexDoc(st, id, doc), id), st)
  {
    var st' := DeleteDoc(IndexDoc(st, id, doc), id);
    assert st'.docs == st.docs by {
      assert st.docs[id := doc] - {id} == st.docs;
    }
    hide IndexDoc, DeleteDoc, InvertedExact, PostingsExact, LengthsExact, EntriesExact, FieldsNested;
    forall f
      ensures TermsOf(st', f) == TermsOf(st, f) && ListsOf(st', f) == ListsOf(st, f)
      ensures LengthsOf(st', f) == LengthsOf(st, f) && EntriesOf(st', f) == EntriesOf(st, f)
    {
      UndoneTerms(st, id, doc, f);
      UndoneLists(st, id, doc, f);
      UndoneLengths(st, id, doc, f);
      UndoneEntries(st, id, doc, f);
    }
  }

  lemma {:induction false} UndoneTerms(st: State, id: string, doc: Doc, f: string)
    requires InvertedExact(st) && id !in st.docs
    ensures TermsOf(DeleteDoc(IndexDoc(st, id, doc), id), f) == TermsOf(st, f)
  {
    hide IndexDoc, DeleteDoc, Words, AddTerms, DropTerms;
    var m := TermsOf(st, f);
    forall t | t in m ensures m[t] != {} && id !in m[t] {
      assert id in Hits(st, f, t) <==> HasWord(st.docs, id, f, t);
    }
    DocsAfter(st, id, doc);
    TermsAfterIndex(st, id, doc, f);
    TermsAfterDelete(IndexDoc(st, id, doc), id, f);
    if f in doc {
      TermsUndone(m, Words(doc[f]), id);
    }
  }

  lemma {:induction false} UndoneLists(st: State, id: string, doc: Doc, f: string)
    requires PostingsExact(st) && FieldsNested(st) && id !in st.docs
    ensures ListsOf(DeleteDoc(IndexDoc(st, id, doc), id), f) == ListsOf(st, f)
  {
    hide IndexDoc, DeleteDoc, Words, Count, AddLists, DropLists, FieldsNested;
    var m := ListsOf(st, f);
    forall t, p | t in m && p in m[t].postings ensures p.id != id {
      assert PostingsExactAt(st, f, t);
      assert Posting(p.id, p.tf) in PostingsOf(m, t);
    }
    DocsAfter(st, id, doc);
    NestedAfterIndex(st, id, doc);
    ListsAfterIndex(st, id, doc, f);
    ListsAfterDelete(IndexDoc(st, id, doc), id, f);
    if DocHasText(doc, f) {
      ListsUndone(m, Words(doc[f]), id);
    }
  }

  lemma {:induction false} UndoneLengths(st: State, id: string, doc: Doc, f: string)
    requires LengthsExact(st) && FieldsNested(st) && id !in st.docs
    ensures LengthsOf(DeleteDoc(IndexDoc(st, id, doc), id), f) == LengthsOf(st, f)
  {
    hide IndexDoc, DeleteDoc, Words, FieldsNested, LengthsOf;
    var m := LengthsOf(st, f);
    assert id in m <==> HasText(st.docs, id, f);
    DocsAfter(st, id, doc);
    NestedAfterIndex(st, id, doc);
    LengthsAfterIndex(st, id, doc, f);
    LengthsAfterDelete(IndexDoc(st, id, doc), id, f);
    if DocHasText(doc, f) {
      assert m[id := |Words(doc[f])|] - {id} == m;
    }
  }

  lemma {:induction false} UndoneEntries(st: State, id: string, doc: Doc, f: string)
    requires EntriesExact(st) && id !in st.docs
    ensures EntriesOf(DeleteDoc(IndexDoc(st, id, doc), id), f) == EntriesOf(st, f)
  {
    hide IndexDoc, DeleteDoc, SortKey;
    var es := EntriesOf(st, f);
    DocsAfter(st, id, doc);
    EntriesAfterIndex(st, id, doc, f);
    EntriesAfterDelete(IndexDoc(st, id, doc), id, f);
    forall x | x in es ensures x.id != id {
      assert SI.Entry(x.value, x.id) in es;
    }
    if f in doc && SortKey(doc[f]).Some? {
      SI.WithoutUndoesUpserted(es, SI.Entry(SortKey(doc[f]).value, id));
    } else {
      WithoutAbsent(es, id);
    }
  }

  lemma {:induction false} WithoutAbsent(es: seq<SI.Entry>, id: string)
    requires forall x :: x in es ==> x.id != id
    ensures SI.Without(es, id) == es
  {
    if es != [] {
      WithoutAbsent(es[1..], id);
      assert es == [es[0]] + es[1..];
    }
  }

  // ------------------------------------------------------------------
  // Searching and scoring statistics
  // ------------------------------------------------------------------

  /** The documents that match any word of a text: the union of the hits of its words. */
  function MatchWords(st: State, f: string, text: string): set<string> { Union(TermsOf(st, f), Tokenize(text)) }

  function Union(terms: Terms, words: seq<string>): set<string> {
    set t, id | t in words && id in IdsOf(terms, t) :: id
  }

  /** On an exact index a match search finds exactly the documents that share a word with the text; on a complete one it
      misses none of them. */
  lemma {:induction false} MatchFindsExactly(st: State, f: string, text: string, id: string)
    ensures InvertedExact(st) ==>
      (id in MatchWords(st, f, text) <==> exists t :: t in Tokenize(text) && HasWord(st.docs, id, f, t))
    ensures Complete(st) ==>
      ((exists t :: t in Tokenize(text) && HasWord(st.docs, id, f, t)) ==> id in MatchWords(st, f, text))
  {
    var ws := Tokenize(text);
    hide Tokenize, Words;
    assert id in MatchWords(st, f, text) <==> exists t :: t in ws && id in Hits(st, f, t);
    if InvertedExact(st) && id in MatchWords(st, f, text) {
      var t :| t in ws && id in Hits(st, f, t);
      assert HasWord(st.docs, id, f, t);
    }
  }

  /** The frequency of a document in a list, 0 if it has no posting. */
  function TfOf(ps: seq<Posting>, id: string): nat {
    if ps == [] then 0 else if ps[0].id == id then ps[0].tf else TfOf(ps[1..], id)
  }

  /** The frequencies of a document in a field, token by token. */
  function FrequenciesOf(st: State, f: string, id: string): map<string, nat> {
    var m := ListsOf(st, f);
    map t | t in m && TfOf(m[t].postings, id) > 0 :: TfOf(m[t].postings, id)
  }

  function CountsOf(ws: seq<string>): map<string, nat> { map t | t in ws :: Count(ws, t) }

  lemma {:induction false} CountsCons(w: string, rest: seq<string>)
    ensures CountsOf([w] + rest) == CountsOf(rest)[w := (if w in rest then CountsOf(rest)[w] else 0) + 1]
  {
    var ws := [w] + rest;
    assert ws[1..] == rest;
    CountPositive(rest, w);
    forall t ensures Count(ws, t) == (if t == w then 1 else 0) + Count(rest, t) {
    }
    hide Count;
    assert forall t :: t in ws <==> t == w || t in rest;
  }

  lemma {:induction false} CountsSum(ws: seq<string>)
    ensures SumOfMap(CountsOf(ws)) == |ws|
  {
    if ws == [] {
      assert CountsOf(ws) == map[];
    } else {
      var w, rest := ws[0], ws[1..];
      assert ws == [w] + rest;
      CountsSum(rest);
      CountsCons(w, rest);
      var m := CountsOf(rest);
      assert w in m <==> w in rest;
      hide CountsOf, SumOfMap;
      SumOfMapUpdated(m, w, (if w in m then m[w] else 0) + 1);
    }
  }

  lemma {:induction false} TfFound(ps: seq<Posting>, id: string, n: nat)
    requires OnePerDoc(ps) && n > 0 && forall p :: p in ps ==> p.tf > 0
    ensures TfOf(ps, id) == n <==> Posting(id, n) in ps
  {
    if ps != [] {
      assert ps == [ps[0]] + ps[1..];
      TfFound(ps[1..], id, n);
      if ps[0].id == id {
        assert forall k :: 0 <= k < |ps[1..]| ==> ps[1..][k].id != id;
      }
    }
  }

  lemma {:induction false} TfIsCount(st: State, f: string, t: string, id: string)
    requires PostingsExactAt(st, f, t) && HasText(st.docs, id, f)
    ensures TfOf(PostingsOf(ListsOf(st, f), t), id) == Count(Words(st.docs[id][f]), t)
  {
    var ps, n := PostingsOf(ListsOf(st, f), t), Count(Words(st.docs[id][f]), t);
    hide Words, Count;
    forall p | p in ps ensures p.tf > 0 {
      assert Posting(p.id, p.tf) in ps;
    }
    if n > 0 {
      TfFound(ps, id, n);
    } else if TfOf(ps, id) > 0 {
      TfFound(ps, id, TfOf(ps, id));
    }
  }

  /** The stored field length of a document is the sum of its frequencies over the postings of the field. */
  lemma {:induction false} LengthIsSumOfFrequencies(st: State, f: string, id: string)
    requires Exact(st) && id in LengthsOf(st, f)
    ensures LengthsOf(st, f)[id] == SumOfMap(FrequenciesOf(st, f, id))
  {
    assert HasText(st.docs, id, f) && LengthsOf(st, f)[id] == |Words(st.docs[id][f])|;
    var ws, m := Words(st.docs[id][f]), ListsOf(st, f);
    forall t ensures t in CountsOf(ws) <==> t in FrequenciesOf(st, f, id)
             ensures t in CountsOf(ws) ==> CountsOf(ws)[t] == FrequenciesOf(st, f, id)[t]
    {
      assert PostingsExactAt(st, f, t);
      hide Exact, Words, Count, PostingsExactAt;
      TfIsCount(st, f, t, id);
      CountPositive(ws, t);
      assert t in m ==> PostingsOf(m, t) == m[t].postings;
    }
    assert CountsOf(ws) == FrequenciesOf(st, f, id);
    CountsSum(ws);
  }
}
