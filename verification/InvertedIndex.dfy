/** What indexing and deleting a document do to one index: the inverted map, the postings with their frequencies, the
    field lengths and the sorted entries (internal/search/engine.go, internal/search/scorer.go). */
module InvertedIndex {
  import opened Common
  import opened Tokenizer
  import SI = SortedIndex

  /** A field value: text is split into words; numbers and booleans are one term (as stringify renders them) and carry a
      sort key (as valueOf renders them); anything else is one term without a sort key. */
  datatype Value = Text(s: string) | Scalar(term: string, key: string) | Other(term: string)

  type Doc = map<string, Value>

  function Words(v: Value): seq<string> {
    if v.Text? then Tokenize(v.s) else [v.term]
  }

  function SortKey(v: Value): Option<string> {
    match v
    case Text(s) => Some(s)
    case Scalar(_, k) => Some(k)
    case Other(_) => None
  }

  type Terms = map<string, set<string>>

  datatype Posting = Posting(id: string, tf: nat)

  datatype PostingList = PostingList(postings: seq<Posting>, df: int)

  type Lists = map<string, PostingList>

  datatype State = State(
    docs: map<string, Doc>,
    inverted: map<string, Terms>,
    postings: map<string, Lists>,
    lengths: map<string, map<string, nat>>,
    sorted: map<string, seq<SI.Entry>>)

  const EMPTY: State := State(map[], map[], map[], map[], map[])

  // ------------------------------------------------------------------
  // Reading, with absent entries empty
  // ------------------------------------------------------------------

  function TermsAt(m: map<string, Terms>, f: string): Terms { if f in m then m[f] else map[] }

  function TermsOf(st: State, f: string): Terms { TermsAt(st.inverted, f) }

  function IdsOf(m: Terms, t: string): set<string> { if t in m then m[t] else {} }

  function Hits(st: State, f: string, t: string): set<string> { IdsOf(TermsOf(st, f), t) }

  function ListsAt(m: map<string, Lists>, f: string): Lists { if f in m then m[f] else map[] }

  function ListsOf(st: State, f: string): Lists { ListsAt(st.postings, f) }

  function PostingsOf(m: Lists, t: string): seq<Posting> { if t in m then m[t].postings else [] }

  function DFOf(m: Lists, t: string): int { if t in m then m[t].df else 0 }

  function LengthsAt(m: map<string, map<string, nat>>, f: string): map<string, nat> { if f in m then m[f] else map[] }

  function LengthsOf(st: State, f: string): map<string, nat> { LengthsAt(st.lengths, f) }

  function EntriesAt(m: map<string, seq<SI.Entry>>, f: string): seq<SI.Entry> { if f in m then m[f] else [] }

  function EntriesOf(st: State, f: string): seq<SI.Entry> { EntriesAt(st.sorted, f) }

  // ------------------------------------------------------------------
  // One field
  // ------------------------------------------------------------------

  function AddTerms(m: Terms, ws: seq<string>, id: string): Terms {
    map t | t in m.Keys + Distinct(ws) :: if t in ws then IdsOf(m, t) + {id} else m[t]
  }

  /** A token left without documents is dropped. */
  function DropTerms(m: Terms, ws: seq<string>, id: string): Terms {
    map t | t in m && (t in ws ==> m[t] - {id} != {}) :: if t in ws then m[t] - {id} else m[t]
  }

  /** Every indexing appends a posting, also for an id that already has one. */
  function AddLists(m: Lists, ws: seq<string>, id: string): Lists {
    map t | t in m.Keys + Distinct(ws) ::
      if t in ws then PostingList(PostingsOf(m, t) + [Posting(id, Count(ws, t))], DFOf(m, t) + 1) else m[t]
  }

  /** Without the first posting of the document. */
  function DropFirst(ps: seq<Posting>, id: string): (r: seq<Posting>)
    ensures |r| == |ps| || |r| == |ps| - 1
  {
    if ps == [] then [] else if ps[0].id == id then ps[1..] else [ps[0]] + DropFirst(ps[1..], id)
  }

  function DropList(l: PostingList, id: string): PostingList {
    var r := DropFirst(l.postings, id);
    PostingList(r, if |r| < |l.postings| then l.df - 1 else l.df)
  }

  function DropLists(m: Lists, ws: seq<string>, id: string): Lists {
    map t | t in m && (t in ws ==> DropList(m[t], id).df > 0) :: if t in ws then DropList(m[t], id) else m[t]
  }

  // ------------------------------------------------------------------
  // One document
  // ------------------------------------------------------------------

  function TextFields(doc: Doc): set<string> { set f | f in doc && doc[f].Text? }

  function KeyedFields(doc: Doc): set<string> { set f | f in doc && SortKey(doc[f]).Some? }

  function AddInverted(m: map<string, Terms>, id: string, doc: Doc): map<string, Terms> {
    map f | f in m.Keys + doc.Keys :: if f in doc then AddTerms(TermsAt(m, f), Words(doc[f]), id) else m[f]
  }

  function AddPostings(m: map<string, Lists>, id: string, doc: Doc): map<string, Lists> {
    map f | f in m.Keys + TextFields(doc) ::
      if f in TextFields(doc) then AddLists(ListsAt(m, f), Words(doc[f]), id) else m[f]
  }

  function AddLengths(m: map<string, map<string, nat>>, id: string, doc: Doc): map<string, map<string, nat>> {
    map f | f in m.Keys + TextFields(doc) ::
      if f in TextFields(doc) then LengthsAt(m, f)[id := |Words(doc[f])|] else m[f]
  }

  function AddSorted(m: map<string, seq<SI.Entry>>, id: string, doc: Doc): map<string, seq<SI.Entry>> {
    map f | f in m.Keys + KeyedFields(doc) ::
      if f in KeyedFields(doc) then SI.Upserted(EntriesAt(m, f), SI.Entry(SortKey(doc[f]).value, id)) else m[f]
  }

  /** The effect of the fields of doc; the document itself is stored separately. */
  function AddFields(st: State, id: string, doc: Doc): State {
    State(st.docs, AddInverted(st.inverted, id, doc), AddPostings(st.postings, id, doc),
          AddLengths(st.lengths, id, doc), AddSorted(st.sorted, id, doc))
  }

  function IndexDoc(st: State, id: string, doc: Doc): State {
    AddFields(st.(docs := st.docs[id := doc]), id, doc)
  }

  function DropInverted(m: map<string, Terms>, id: string, doc: Doc): map<string, Terms> {
    map f | f in m :: if f in doc then DropTerms(m[f], Words(doc[f]), id) else m[f]
  }

  /** The scorer is told only of fields the inverted map knows. */
  function DropPostings(m: map<string, Lists>, known: set<string>, id: string, doc: Doc): map<string, Lists> {
    map f | f in m :: if f in known && f in TextFields(doc) then DropLists(m[f], Words(doc[f]), id) else m[f]
  }

  function DropLengths(m: map<string, map<string, nat>>, known: set<string>, id: string, doc: Doc)
    : map<string, map<string, nat>>
  {
    map f | f in m :: if f in known && f in TextFields(doc) then m[f] - {id} else m[f]
  }

  function DropSorted(m: map<string, seq<SI.Entry>>, id: string): map<string, seq<SI.Entry>> {
    map f | f in m :: SI.Without(m[f], id)
  }

  /** The effect of unindexing the fields of doc. */
  function DropFields(st: State, id: string, doc: Doc): State {
    State(st.docs, DropInverted(st.inverted, id, doc), DropPostings(st.postings, st.inverted.Keys, id, doc),
          DropLengths(st.lengths, st.inverted.Keys * st.postings.Keys, id, doc), st.sorted)
  }

  /** Deleting an id that is not stored changes nothing. */
  function DeleteDoc(st: State, id: string): State {
    if id !in st.docs then st
    else
      DropFields(st, id, st.docs[id]).(docs := st.docs - {id}, sorted := DropSorted(st.sorted, id))
  }

  // ------------------------------------------------------------------
  // What the index should hold
  // ------------------------------------------------------------------

  predicate HasWord(docs: map<string, Doc>, id: string, f: string, t: string) {
    id in docs && f in docs[id] && t in Words(docs[id][f])
  }

  predicate HasText(docs: map<string, Doc>, id: string, f: string) {
    id in docs && f in docs[id] && docs[id][f].Text?
  }

  /** The inverted map holds exactly the words of the stored documents. */
  ghost predicate InvertedExact(st: State) {
    (forall f, t, id :: id in Hits(st, f, t) <==> HasWord(st.docs, id, f, t)) && NoEmptyTerms(st)
  }

  predicate NoEmptyTerms(st: State) {
    forall f, t :: f in st.inverted && t in st.inverted[f] ==> st.inverted[f][t] != {}
  }

  /** A list without two postings of one document. */
  predicate OnePerDoc(ps: seq<Posting>) {
    forall i, j :: 0 <= i < j < |ps| ==> ps[i].id != ps[j].id
  }

  /** The token has one posting per document that contains it in a text field, with its multiplicity there. */
  ghost predicate PostingsExactAt(st: State, f: string, t: string) {
    && (forall id, n :: Posting(id, n) in PostingsOf(ListsOf(st, f), t)
          <==> HasText(st.docs, id, f) && n > 0 && n == Count(Words(st.docs[id][f]), t))
    && OnePerDoc(PostingsOf(ListsOf(st, f), t))
  }

  /** Every token's postings are exact, and its document frequency is their number. */
  ghost predicate PostingsExact(st: State) {
    (forall f, t :: PostingsExactAt(st, f, t)) && FrequenciesExact(st)
  }

  ghost predicate FrequenciesExact(st: State) {
    forall f, t :: f in st.postings && t in st.postings[f] ==>
      st.postings[f][t].df == |st.postings[f][t].postings| > 0
  }

  ghost predicate LengthsExact(st: State) {
    forall f, id :: && (id in LengthsOf(st, f) <==> HasText(st.docs, id, f))
                    && (id in LengthsOf(st, f) ==> LengthsOf(st, f)[id] == |Words(st.docs[id][f])|)
  }

  ghost predicate EntriesExact(st: State) {
    && (forall f :: SI.Sorted(EntriesOf(st, f)))
    && forall f, v, id :: SI.Entry(v, id) in EntriesOf(st, f)
         <==> id in st.docs && f in st.docs[id] && SortKey(st.docs[id][f]) == Some(v)
  }

  /** Fields are known to the scorer only if the inverted map knows them, and to the length table only if the scorer
      does. */
  predicate FieldsNested(st: State) { st.lengths.Keys <= st.postings.Keys <= st.inverted.Keys }

  ghost predicate Exact(st: State) {
    InvertedExact(st) && PostingsExact(st) && LengthsExact(st) && EntriesExact(st) && FieldsNested(st)
  }

  /** What holds even when documents are overwritten. */
  ghost predicate Complete(st: State) {
    && (forall id, f, t :: HasWord(st.docs, id, f, t) ==> id in Hits(st, f, t))
    && (forall f :: SI.Sorted(EntriesOf(st, f)))
    && (forall f, v, id :: id in st.docs && f in st.docs[id] && SortKey(st.docs[id][f]) == Some(v) ==>
          SI.Entry(v, id) in EntriesOf(st, f))
    && FrequenciesExact(st)
    && FieldsNested(st)
  }

  // ------------------------------------------------------------------
  // Postings lists
  // ------------------------------------------------------------------

  lemma {:induction false} DropFirstMembers(ps: seq<Posting>, id: string, p: Posting)
    requires OnePerDoc(ps)
    ensures p in DropFirst(ps, id) <==> p in ps && p.id != id
    ensures OnePerDoc(DropFirst(ps, id))
    ensures |DropFirst(ps, id)| < |ps| <==> exists q :: q in ps && q.id == id
  {
    if ps != [] {
      assert ps == [ps[0]] + ps[1..];
      if ps[0].id == id {
        assert ps[0] in ps;
      } else {
        DropFirstMembers(ps[1..], id, p);
        var r := DropFirst(ps[1..], id);
        forall k | 0 <= k < |r| ensures r[k].id != ps[0].id {
          DropFirstMembers(ps[1..], id, r[k]);
        }
      }
    }
  }

  lemma {:induction false} DropFirstUndoesAppend(ps: seq<Posting>, p: Posting)
    requires forall q :: q in ps ==> q.id != p.id
    ensures DropFirst(ps + [p], p.id) == ps
  {
    if ps == [] {
      assert ps + [p] == [p];
    } else {
      DropFirstUndoesAppend(ps[1..], p);
      assert (ps + [p])[1..] == ps[1..] + [p];
      assert ps == [ps[0]] + ps[1..];
    }
  }
}
