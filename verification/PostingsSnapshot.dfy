/** Versioned snapshots of the inverted map, flushed while the index changes (internal/search/postings_snapshot.go,
    internal/search/persistence.go). One index, one process lifetime. */
module PostingsSnapshot {
  import opened Common
  import opened Text
  import opened Tokenizer
  import opened InvertedIndex
  import opened IndexRuns
  import SI = SortedIndex
  import Engine

  datatype FieldSnapshot = FieldSnapshot(postings: map<string, seq<Posting>>, lengths: map<string, nat>)

  type Fields = map<string, FieldSnapshot>

  // ------------------------------------------------------------------
  // What a flush captures and a load restores
  // ------------------------------------------------------------------

  /** The frequency of the first posting of the document, 1 if there is none. */
  function FrequencyOf(ps: seq<Posting>, id: string): nat {
    if ps == [] then 1 else if ps[0].id == id then ps[0].tf else FrequencyOf(ps[1..], id)
  }

  predicate Ascending(ps: seq<Posting>) {
    forall i, j :: 0 <= i < j < |ps| ==> Less(ps[i].id, ps[j].id)
  }

  /** One entry per document of the token, by id. */
  ghost predicate EntriesFor(es: seq<Posting>, ids: set<string>, ps: seq<Posting>) {
    && Ascending(es)
    && (forall e :: e in es ==> e.id in ids && e.tf == FrequencyOf(ps, e.id))
    && (forall id :: id in ids ==> Posting(id, FrequencyOf(ps, id)) in es)
  }

  ghost predicate FieldCaptured(st: State, f: string, s: FieldSnapshot)
    requires f in st.inverted
  {
    && s.postings.Keys == st.inverted[f].Keys
    && (forall t :: t in s.postings ==> EntriesFor(s.postings[t], st.inverted[f][t], PostingsOf(ListsOf(st, f), t)))
    && s.lengths == LengthsOf(st, f)
  }

  ghost predicate Captured(st: State, fields: Fields) {
    fields.Keys == st.inverted.Keys && forall f :: f in fields ==> FieldCaptured(st, f, fields[f])
  }

  function IdSet(es: seq<Posting>): set<string> { set e | e in es :: e.id }

  function LoadedTerms(s: FieldSnapshot): Terms { map t | t in s.postings :: IdSet(s.postings[t]) }

  /** Loading into an engine that has nothing of the index. */
  function LoadedInverted(fields: Fields): map<string, Terms> { map f | f in fields :: LoadedTerms(fields[f]) }

  function LoadedLists(s: FieldSnapshot): Lists {
    map t | t in s.postings :: PostingList(s.postings[t], |s.postings[t]|)
  }

  function AllLoadedLists(fields: Fields): map<string, Lists> { map f | f in fields :: LoadedLists(fields[f]) }

  /** A field without lengths gets no table. */
  function LoadedLengths(fields: Fields): map<string, map<string, nat>> {
    map f | f in fields && fields[f].lengths != map[] :: fields[f].lengths
  }

  /** A fresh engine with the stored documents, after the load. Sorted entries are not part of a snapshot. */
  function LoadedState(docs: map<string, Doc>, fields: Fields): State {
    State(docs, LoadedInverted(fields), AllLoadedLists(fields), LoadedLengths(fields), map[])
  }

  lemma {:induction false} EntriesGiveIds(es: seq<Posting>, ids: set<string>, ps: seq<Posting>)
    requires EntriesFor(es, ids, ps)
    ensures IdSet(es) == ids
  {
    forall id | id in ids ensures id in IdSet(es) {
      assert Posting(id, FrequencyOf(ps, id)) in es;
    }
  }

  /** Loading what was captured gives the inverted map back. */
  lemma {:induction false} LoadReturnsCaptured(st: State, fields: Fields)
    requires Captured(st, fields)
    ensures LoadedInverted(fields) == st.inverted
  {
    forall f | f in fields ensures LoadedTerms(fields[f]) == st.inverted[f] {
      assert FieldCaptured(st, f, fields[f]);
      forall t | t in fields[f].postings ensures IdSet(fields[f].postings[t]) == st.inverted[f][t] {
        EntriesGiveIds(fields[f].postings[t], st.inverted[f][t], PostingsOf(ListsOf(st, f), t));
      }
    }
  }

  lemma {:induction false} FrequencyFound(ps: seq<Posting>, id: string)
    ensures (exists p :: p in ps && p.id == id) ==> Posting(id, FrequencyOf(ps, id)) in ps
    ensures (forall p :: p in ps ==> p.id != id) ==> FrequencyOf(ps, id) == 1
  {
    if ps != [] {
      FrequencyFound(ps[1..], id);
      assert ps == [ps[0]] + ps[1..];
      if ps[0].id == id {
        assert Posting(id, ps[0].tf) == ps[0];
      }
    }
  }

  lemma {:induction false} FrequencyUnique(ps: seq<Posting>, p: Posting)
    requires OnePerDoc(ps) && p in ps
    ensures FrequencyOf(ps, p.id) == p.tf
  {
    FrequencyFound(ps, p.id);
    var i :| 0 <= i < |ps| && ps[i] == p;
    var j :| 0 <= j < |ps| && ps[j] == Posting(p.id, FrequencyOf(ps, p.id));
  }

  /** The documents with the token in a text field are those with a posting, and the posting found first is theirs. */
  lemma {:induction false} PostingsAreOfText(st: State, f: string, t: string)
    requires PostingsExactAt(st, f, t)
    ensures var ps := PostingsOf(ListsOf(st, f), t);
      && (forall p :: p in ps ==> p == Posting(p.id, FrequencyOf(ps, p.id)))
      && (forall id ::
            Posting(id, FrequencyOf(ps, id)) in ps <==> HasWord(st.docs, id, f, t) && HasText(st.docs, id, f))
  {
    var ps := PostingsOf(ListsOf(st, f), t);
    hide FrequencyOf, Words, Count, ListsOf, PostingsOf;
    forall p | p in ps ensures p == Posting(p.id, FrequencyOf(ps, p.id)) {
      FrequencyUnique(ps, p);
    }
    forall id
      ensures Posting(id, FrequencyOf(ps, id)) in ps <==> HasWord(st.docs, id, f, t) && HasText(st.docs, id, f)
    {
      FrequencyFound(ps, id);
      if HasText(st.docs, id, f) {
        var n := Count(Words(st.docs[id][f]), t);
        CountPositive(Words(st.docs[id][f]), t);
        assert Posting(id, n) in ps <==> n > 0;
      }
    }
  }

  /** A reload gives a token the postings it had if and only if every document that contains the token has it in a text
      field: terms of other fields come back with a posting of frequency 1 they never had. */
  lemma {:induction false} ReloadedPostingsExactlyWhen(st: State, fields: Fields, f: string, t: string)
    requires Exact(st) && Captured(st, fields) && f in fields && t in fields[f].postings
    ensures (forall p :: p in PostingsOf(LoadedLists(fields[f]), t) <==> p in PostingsOf(ListsOf(st, f), t))
       <==> (forall id :: HasWord(st.docs, id, f, t) ==> HasText(st.docs, id, f))
  {
    var es, ps, ids := fields[f].postings[t], PostingsOf(ListsOf(st, f), t), st.inverted[f][t];
    assert FieldCaptured(st, f, fields[f]) && PostingsExactAt(st, f, t);
    assert EntriesFor(es, ids, ps) && PostingsOf(LoadedLists(fields[f]), t) == es;
    assert forall id :: id in ids <==> HasWord(st.docs, id, f, t) by {
      assert forall id :: id in Hits(st, f, t) <==> HasWord(st.docs, id, f, t);
    }
    hide Exact, Captured, FieldCaptured, PostingsExactAt, ListsOf, PostingsOf;
    hide LoadedLists, HasWord, HasText, FrequencyOf;
    PostingsAreOfText(st, f, t);
    EntriesAreThese(es, ids, ps);
    if forall id :: HasWord(st.docs, id, f, t) ==> HasText(st.docs, id, f) {
      forall p ensures p in es <==> p in ps {
        assert p in ps ==> Posting(p.id, FrequencyOf(ps, p.id)) in ps;
      }
    }
    if forall p :: p in es <==> p in ps {
      forall id | HasWord(st.docs, id, f, t) ensures HasText(st.docs, id, f) {
        assert Posting(id, FrequencyOf(ps, id)) in es;
      }
    }
  }

  lemma {:induction false} EntriesAreThese(es: seq<Posting>, ids: set<string>, ps: seq<Posting>)
    requires EntriesFor(es, ids, ps)
    ensures forall p :: p in es <==> p.id in ids && p == Posting(p.id, FrequencyOf(ps, p.id))
  {
    hide FrequencyOf, Ascending;
    forall p | p in es ensures p == Posting(p.id, FrequencyOf(ps, p.id)) {
      assert p.tf == FrequencyOf(ps, p.id);
    }
  }

  // ------------------------------------------------------------------
  // The state after a load
  // ------------------------------------------------------------------

  /** What holds after a load apart from the sorted entries and, for terms of other fields, the postings. */
  ghost predicate AlmostExact(st: State) {
    InvertedExact(st) && FrequenciesExact(st) && LengthsExact(st) && FieldsNested(st)
  }

  ghost predicate WordsInTextOnly(docs: map<string, Doc>) {
    forall id, f, t :: HasWord(docs, id, f, t) ==> HasText(docs, id, f)
  }

  lemma {:induction false} LoadedFrequencies(st: State, fields: Fields)
    requires NoEmptyTerms(st) && Captured(st, fields)
    ensures FrequenciesExact(LoadedState(st.docs, fields))
  {
    var l := LoadedState(st.docs, fields);
    hide LoadedInverted, LoadedLengths;
    forall f, t | f in l.postings && t in l.postings[f]
      ensures l.postings[f][t].df == |l.postings[f][t].postings| > 0
    {
      assert FieldCaptured(st, f, fields[f]);
      EntriesGiveIds(fields[f].postings[t], st.inverted[f][t], PostingsOf(ListsOf(st, f), t));
    }
  }

  lemma {:induction false} LoadedLengthsExact(st: State, fields: Fields)
    requires LengthsExact(st) && st.lengths.Keys <= st.inverted.Keys && Captured(st, fields)
    ensures LengthsExact(LoadedState(st.docs, fields))
  {
    var l := LoadedState(st.docs, fields);
    hide LoadedInverted, AllLoadedLists, Words;
    forall f ensures LengthsOf(l, f) == LengthsOf(st, f) {
      assert f in fields ==> FieldCaptured(st, f, fields[f]);
    }
  }

  lemma {:induction false} LoadedInvertedExact(st: State, fields: Fields)
    requires InvertedExact(st) && Captured(st, fields)
    ensures InvertedExact(LoadedState(st.docs, fields))
  {
    LoadReturnsCaptured(st, fields);
    var l := LoadedState(st.docs, fields);
    hide Captured, LoadedInverted, AllLoadedLists, LoadedLengths, HasWord;
    assert forall f, t :: Hits(l, f, t) == Hits(st, f, t);
  }

  lemma {:induction false} LoadedPostingsAt(st: State, fields: Fields, f: string, t: string)
    requires Exact(st) && Captured(st, fields)
    ensures PostingsExactAt(LoadedState(st.docs, fields), f, t) <==>
            forall id :: HasWord(st.docs, id, f, t) ==> HasText(st.docs, id, f)
  {
    var l := LoadedState(st.docs, fields);
    var ps, loaded := PostingsOf(ListsOf(st, f), t), PostingsOf(ListsOf(l, f), t);
    assert PostingsExactAt(st, f, t);
    if f in fields && t in fields[f].postings {
      assert FieldCaptured(st, f, fields[f]) && Ascending(loaded);
      ReloadedPostingsExactlyWhen(st, fields, f, t);
      assert loaded == PostingsOf(LoadedLists(fields[f]), t);
      hide *;
      SameMembers(st, l, f, t);
    } else {
      assert loaded == [] && Hits(st, f, t) == {} by {
        assert f in fields <==> f in st.inverted;
        assert f in fields ==> FieldCaptured(st, f, fields[f]);
      }
      assert forall id :: !HasWord(st.docs, id, f, t) by {
        assert forall id :: id in Hits(st, f, t) <==> HasWord(st.docs, id, f, t);
      }
      NoWordNoPosting(l, f, t);
    }
  }

  lemma {:induction false} NoWordNoPosting(l: State, f: string, t: string)
    requires PostingsOf(ListsOf(l, f), t) == [] && forall id :: !HasWord(l.docs, id, f, t)
    ensures PostingsExactAt(l, f, t)
  {
    hide Words, Count;
    forall id | HasText(l.docs, id, f) ensures Count(Words(l.docs[id][f]), t) == 0 {
      CountPositive(Words(l.docs[id][f]), t);
      assert !HasWord(l.docs, id, f, t);
    }
  }

  /** Postings in another order are as exact. */
  lemma {:induction false} SameMembers(st: State, l: State, f: string, t: string)
    requires PostingsExactAt(st, f, t) && l.docs == st.docs && Ascending(PostingsOf(ListsOf(l, f), t))
    ensures PostingsExactAt(l, f, t) <==>
            forall p :: p in PostingsOf(ListsOf(l, f), t) <==> p in PostingsOf(ListsOf(st, f), t)
  {
    var ps, qs := PostingsOf(ListsOf(st, f), t), PostingsOf(ListsOf(l, f), t);
    AscendingOnce(qs);
    hide Ascending, OnePerDoc, ListsOf, PostingsOf, Words, Count;
    if PostingsExactAt(l, f, t) {
      forall p ensures p in qs <==> p in ps {
        assert Posting(p.id, p.tf) == p;
      }
    }
  }

  lemma {:induction false} AscendingOnce(ps: seq<Posting>)
    requires Ascending(ps)
    ensures OnePerDoc(ps)
  {
    forall i, j | 0 <= i < j < |ps| ensures ps[i].id != ps[j].id {
      LessIrreflexive(ps[i].id);
    }
  }

  /** Of an exact index, a load brings back exact hits, frequencies and lengths; exact postings if and only if all words
      are in text fields; exact sorted entries if and only if no document has a sort key. */
  lemma {:induction false} LoadedExactlyWhen(st: State, fields: Fields)
    requires Exact(st) && Captured(st, fields)
    ensures var l := LoadedState(st.docs, fields);
      && AlmostExact(l)
      && (PostingsExact(l) <==> WordsInTextOnly(st.docs))
      && (EntriesExact(l) <==> forall id, f :: id in st.docs && f in st.docs[id] ==> SortKey(st.docs[id][f]).None?)
  {
    var l := LoadedState(st.docs, fields);
    LoadedInvertedExact(st, fields);
    LoadedFrequencies(st, fields);
    LoadedLengthsExact(st, fields);
    assert FieldsNested(l);
    NoEntries(l);
    forall f, t
      ensures PostingsExactAt(l, f, t) <==> forall id :: HasWord(st.docs, id, f, t) ==> HasText(st.docs, id, f)
    {
      LoadedPostingsAt(st, fields, f, t);
    }
    hide Exact, Captured, PostingsExactAt, HasWord, HasText, FrequenciesExact, EntriesExact, LoadedState;
    if PostingsExact(l) {
      forall id, f, t | HasWord(st.docs, id, f, t) ensures HasText(st.docs, id, f) {
        assert PostingsExactAt(l, f, t);
      }
    }
  }

  lemma {:induction false} NoEntries(l: State)
    requires l.sorted == map[]
    ensures EntriesExact(l) <==> forall id, f :: id in l.docs && f in l.docs[id] ==> SortKey(l.docs[id][f]).None?
  {
    if EntriesExact(l) {
      forall id, f | id in l.docs && f in l.docs[id] ensures SortKey(l.docs[id][f]).None? {
        assert forall v :: SI.Entry(v, id) !in EntriesOf(l, f);
      }
    }
  }

  /** Deleting a document from a loaded index keeps what is exact exact. */
  lemma {:induction false} DeleteFromLoaded(st: State, fields: Fields, id: string)
    requires Exact(st) && Captured(st, fields)
    ensures var l := DeleteDoc(LoadedState(st.docs, fields), id);
      AlmostExact(l) && (WordsInTextOnly(st.docs) ==> PostingsExact(l))
  {
    var l := LoadedState(st.docs, fields);
    LoadedExactlyWhen(st, fields);
    hide Exact, Captured, LoadedState, InvertedExact, FrequenciesExact, LengthsExact, FieldsNested, PostingsExact;
    InvertedAfterDelete(l, id);
    FrequenciesAfterDelete(l, id);
    LengthsExactAfterDelete(l, id);
    NestedAfterDelete(l, id);
    if PostingsExact(l) {
      PostingsExactAfterDelete(l, id);
    }
  }

  // ------------------------------------------------------------------
  // Rebuilding the inverted map from the documents
  // ------------------------------------------------------------------

  predicate FieldKnown(docs: map<string, Doc>, f: string) { exists id :: id in docs && f in docs[id] }

  /** What a rebuild produces: every field is known again, but only text fields get their words. */
  ghost predicate Rebuilt(docs: map<string, Doc>, inverted: map<string, Terms>) {
    && (forall f :: f in inverted <==> FieldKnown(docs, f))
    && (forall f, t, id :: id in IdsOf(TermsAt(inverted, f), t) <==> HasText(docs, id, f) && HasWord(docs, id, f, t))
    && (forall f, t :: f in inverted && t in inverted[f] ==> inverted[f][t] != {})
  }

  /** A rebuild leaves the inverted map exact if and only if the stored documents have text fields only. */
  lemma {:induction false} RebuildExactExactlyWhen(st: State, inverted: map<string, Terms>)
    requires Rebuilt(st.docs, inverted)
    ensures InvertedExact(st.(inverted := inverted)) <==>
            forall id, f :: id in st.docs && f in st.docs[id] && Words(st.docs[id][f]) != [] ==> st.docs[id][f].Text?
  {
    var st' := st.(inverted := inverted);
    hide Words;
    if InvertedExact(st') {
      forall id, f | id in st.docs && f in st.docs[id] && Words(st.docs[id][f]) != [] ensures st.docs[id][f].Text? {
        var t := Words(st.docs[id][f])[0];
        assert HasWord(st.docs, id, f, t);
        assert id in Hits(st', f, t);
      }
    } else if forall id, f ::
                id in st.docs && f in st.docs[id] && Words(st.docs[id][f]) != [] ==> st.docs[id][f].Text?
    {
      forall f, t, id ensures id in Hits(st', f, t) <==> HasWord(st.docs, id, f, t) {
        assert id in IdsOf(TermsAt(inverted, f), t) <==> HasText(st.docs, id, f) && HasWord(st.docs, id, f, t);
      }
    }
  }

  // ------------------------------------------------------------------
  // Runs
  // ------------------------------------------------------------------

  /** One index: its memory, its version, writes whose version step is still to come, and the stored snapshot. */
  datatype System = System(st: State, version: nat, pending: nat, fields: Fields, snapVersion: Option<nat>)

  const BEGIN: System := System(EMPTY, 0, 0, map[], None)

  /** A write changes memory first; its version step comes later, outside the lock. */
  ghost predicate Writes(s: System, s': System) {
    || (exists id, doc :: s' == s.(st := IndexDoc(s.st, id, doc), pending := s.pending + 1))
    || (exists id :: s' == s.(st := DeleteDoc(s.st, id), pending := s.pending + 1))
  }

  predicate Bumps(s: System, s': System) {
    s.pending > 0 && s' == s.(version := s.version + 1, pending := s.pending - 1)
  }

  /** Fields are stored one by one over what is there. */
  ghost predicate Flushes(s: System, s': System) {
    if s.st.inverted == map[] then s' == s.(fields := map[], snapVersion := None)
    else exists captured :: Captured(s.st, captured)
           && s' == s.(fields := s.fields + captured, snapVersion := Some(s.version))
  }

  /** A flush that fails halfway has stored some fields and no version. */
  ghost predicate FlushFails(s: System, s': System) {
    exists captured, some ::
      Captured(s.st, captured) && some <= captured.Keys
      && s' == s.(fields := s.fields + (map f | f in some && f in captured :: captured[f]))
  }

  predicate DropsIndex(s: System, s': System) {
    s' == s.(st := EMPTY, fields := map[], snapVersion := None)
  }

  ghost predicate Rebuilds(s: System, s': System) {
    && Rebuilt(s.st.docs, s'.st.inverted) && s'.st.docs == s.st.docs
    && s' == s.(st := s'.st, fields := map[], snapVersion := None)
  }

  ghost predicate Next(s: System, s': System) {
    Writes(s, s') || Bumps(s, s') || Flushes(s, s') || FlushFails(s, s') || DropsIndex(s, s') || Rebuilds(s, s')
  }

  /** LoadPostingsSnapshot takes the snapshot when its version is the current one and it has a field. */
  predicate Accepted(s: System) { s.snapVersion == Some(s.version) && s.fields != map[] }

  /** A snapshot of the current version misses at most writes whose version step is still to come. */
  ghost predicate Fresh(s: System) {
    && (s.snapVersion.Some? ==> s.snapVersion.value <= s.version)
    && s.fields.Keys <= s.st.inverted.Keys
    && (s.snapVersion == Some(s.version) && s.pending == 0 ==> Captured(s.st, s.fields))
  }

  lemma {:induction false} FieldsStayKnown(st: State, id: string, doc: Doc)
    ensures st.inverted.Keys <= IndexDoc(st, id, doc).inverted.Keys
    ensures st.inverted.Keys <= DeleteDoc(st, id).inverted.Keys
  {
    hide AddTerms, DropTerms, Words;
  }

  lemma {:induction false} OverlayCaptured(st: State, a: Fields, b: Fields)
    requires a.Keys <= st.inverted.Keys && Captured(st, b)
    ensures Captured(st, a + b)
    ensures forall some :: some <= b.Keys && Captured(st, a) ==>
              Captured(st, a + (map f | f in some && f in b :: b[f]))
  {
    hide FieldCaptured;
    assert (a + b).Keys == st.inverted.Keys;
    forall some | some <= b.Keys && Captured(st, a) ensures Captured(st, a + (map f | f in some && f in b :: b[f])) {
      var c := a + (map f | f in some && f in b :: b[f]);
      assert c.Keys == st.inverted.Keys;
    }
  }

  lemma {:induction false} NextKeepsFresh(s: System, s': System)
    requires Fresh(s) && Next(s, s')
    ensures Fresh(s')
  {
    if Writes(s, s') {
      if id, doc :| s' == s.(st := IndexDoc(s.st, id, doc), pending := s.pending + 1) {
        FieldsStayKnown(s.st, id, doc);
      } else {
        var id :| s' == s.(st := DeleteDoc(s.st, id), pending := s.pending + 1);
        FieldsStayKnown(s.st, id, map[]);
      }
    } else if Flushes(s, s') {
      if s.st.inverted != map[] {
        var captured :| Captured(s.st, captured)
          && s' == s.(fields := s.fields + captured, snapVersion := Some(s.version));
        OverlayCaptured(s.st, s.fields, captured);
      }
    } else if FlushFails(s, s') {
      var captured, some :| Captured(s.st, captured) && some <= captured.Keys
        && s' == s.(fields := s.fields + (map f | f in some && f in captured :: captured[f]));
      OverlayCaptured(s.st, s.fields, captured);
    }
  }

  /** A run from an empty store. */
  ghost predicate IsRun(run: seq<System>) {
    run != [] && run[0] == BEGIN && forall k :: 0 < k < |run| ==> Next(run[k-1], run[k])
  }

  lemma {:induction false} RunsStayFresh(run: seq<System>)
    requires IsRun(run)
    ensures Fresh(run[|run|-1])
  {
    if |run| > 1 {
      RunsStayFresh(run[..|run|-1]);
      NextKeepsFresh(run[|run|-2], run[|run|-1]);
    }
  }

  /** In every run, a snapshot that is accepted while no write is halfway gives the current inverted map back: a stale
      snapshot is never accepted. */
  lemma {:induction false} AcceptedSnapshotIsCurrent(run: seq<System>, k: nat)
    requires IsRun(run) && k < |run|
    ensures Accepted(run[k]) && run[k].pending == 0 ==> LoadedInverted(run[k].fields) == run[k].st.inverted
  {
    RunsStayFresh(run[..k+1]);
    if Accepted(run[k]) && run[k].pending == 0 {
      LoadReturnsCaptured(run[k].st, run[k].fields);
    }
  }

  /** In every run, a load that is accepted while no write is halfway gives an exact index exact hits, frequencies and
      lengths, and exact postings if and only if all its words are in text fields; so it does after any deletion. */
  lemma {:induction false} AcceptedLoadExactlyWhen(run: seq<System>, k: nat, id: string)
    requires IsRun(run) && k < |run| && Accepted(run[k]) && run[k].pending == 0 && Exact(run[k].st)
    ensures var s := run[k]; var l := LoadedState(s.st.docs, s.fields);
      && AlmostExact(l) && (PostingsExact(l) <==> WordsInTextOnly(s.st.docs))
      && AlmostExact(DeleteDoc(l, id)) && (PostingsExact(l) ==> PostingsExact(DeleteDoc(l, id)))
  {
    RunsStayFresh(run[..k+1]);
    var s := run[k];
    hide *;
    assert run[..k+1][k] == s;
    FreshIsCaptured(s);
    LoadedExactlyWhen(s.st, s.fields);
    DeleteFromLoaded(s.st, s.fields, id);
  }

  lemma {:induction false} FreshIsCaptured(s: System)
    requires Fresh(s) && Accepted(s) && s.pending == 0
    ensures Captured(s.st, s.fields)
  {
  }

  // ------------------------------------------------------------------
  // Why the two conditions are needed
  // ------------------------------------------------------------------

  /** The fields of the document are known and its words found already. */
  predicate AlreadyIndexed(st: State, id: string, doc: Doc) {
    forall f :: f in doc ==> f in st.inverted && forall t :: t in Words(doc[f]) ==> id in Hits(st, f, t)
  }

  /** No word of the stored document is found. */
  ghost predicate NotIndexed(st: State, id: string) {
    id in st.docs ==> forall f, t :: DocHas(st.docs[id], f, t) ==> id !in Hits(st, f, t)
  }

  lemma {:induction false} AddChangesNothing(m: Terms, ws: seq<string>, id: string)
    ensures AddTerms(m, ws, id) == m <==> forall t :: t in ws ==> id in IdsOf(m, t)
  {
    var r := AddTerms(m, ws, id);
    assert forall t :: t in ws ==> t in r && r[t] == IdsOf(m, t) + {id};
    if forall t :: t in ws ==> id in IdsOf(m, t) {
      assert forall t :: t in ws ==> t in m && m[t] + {id} == m[t];
      assert r.Keys == m.Keys;
    }
  }

  lemma {:induction false} IndexChangesNothing(st: State, id: string, doc: Doc)
    ensures IndexDoc(st, id, doc).inverted == st.inverted <==> AlreadyIndexed(st, id, doc)
  {
    var r := IndexDoc(st, id, doc).inverted;
    hide Words, AddTerms;
    assert r.Keys == st.inverted.Keys + doc.Keys;
    forall f | f in doc && f in st.inverted
      ensures r[f] == st.inverted[f] <==> forall t :: t in Words(doc[f]) ==> id in Hits(st, f, t)
    {
      AddChangesNothing(st.inverted[f], Words(doc[f]), id);
    }
  }

  lemma {:induction false} DropChangesNothing(m: Terms, ws: seq<string>, id: string)
    requires forall t :: t in m ==> m[t] != {}
    ensures DropTerms(m, ws, id) == m <==> forall t :: t in ws ==> id !in IdsOf(m, t)
  {
    var r := DropTerms(m, ws, id);
    if r == m {
      forall t | t in ws ensures id !in IdsOf(m, t) {
        assert t in m ==> r[t] == m[t] - {id};
      }
    }
    if forall t :: t in ws ==> id !in IdsOf(m, t) {
      assert forall t :: t in m && t in ws ==> m[t] - {id} == m[t];
      assert r.Keys == m.Keys;
    }
  }

  lemma {:induction false} DeleteChangesNothing(st: State, id: string)
    requires NoEmptyTerms(st)
    ensures DeleteDoc(st, id).inverted == st.inverted <==> NotIndexed(st, id)
  {
    hide Words, DropTerms;
    if id in st.docs {
      var r, doc := DeleteDoc(st, id).inverted, st.docs[id];
      assert r.Keys == st.inverted.Keys;
      forall f | f in doc && f in st.inverted
        ensures r[f] == st.inverted[f] <==> forall t :: t in Words(doc[f]) ==> id !in Hits(st, f, t)
      {
        DropChangesNothing(st.inverted[f], Words(doc[f]), id);
      }
    }
  }

  lemma {:induction false} RunsHaveNoEmptyTerms(run: seq<System>)
    requires IsRun(run)
    ensures NoEmptyTerms(run[|run|-1].st)
  {
    if |run| > 1 {
      RunsHaveNoEmptyTerms(run[..|run|-1]);
      var s, s' := run[|run|-2], run[|run|-1];
      assert Next(s, s');
      hide Captured, IndexDoc, DeleteDoc;
      if Writes(s, s') {
        if id, doc :| s' == s.(st := IndexDoc(s.st, id, doc), pending := s.pending + 1) {
          NoEmptyAfter(s.st, id, doc);
        } else {
          var id :| s' == s.(st := DeleteDoc(s.st, id), pending := s.pending + 1);
          NoEmptyAfter(s.st, id, map[]);
        }
      }
    }
  }

  lemma {:induction false} HalfwayNext(s: System, id: string, doc: Doc)
    ensures Next(s, s.(st := IndexDoc(s.st, id, doc), pending := s.pending + 1))
    ensures Next(s, s.(st := DeleteDoc(s.st, id), pending := s.pending + 1))
  {
    hide IndexDoc, DeleteDoc, Bumps, Flushes, FlushFails, DropsIndex, Rebuilds;
    assert Writes(s, s.(st := IndexDoc(s.st, id, doc), pending := s.pending + 1));
    assert Writes(s, s.(st := DeleteDoc(s.st, id), pending := s.pending + 1));
  }

  /** In every run, between a write and its version step the snapshot that was accepted before is accepted still. It
      gives the current map if and only if the write changes nothing there: the document was found under all its words
      already, or under none of them. */
  lemma {:induction false} HalfwayWriteIsMissedExactlyWhen(run: seq<System>, id: string, doc: Doc)
    requires IsRun(run) && Accepted(run[|run|-1]) && run[|run|-1].pending == 0
    ensures var s := run[|run|-1]; var s' := s.(st := IndexDoc(s.st, id, doc), pending := 1);
      Next(s, s') && Accepted(s') && (LoadedInverted(s'.fields) == s'.st.inverted <==> AlreadyIndexed(s.st, id, doc))
    ensures var s := run[|run|-1]; var s' := s.(st := DeleteDoc(s.st, id), pending := 1);
      Next(s, s') && Accepted(s') && (LoadedInverted(s'.fields) == s'.st.inverted <==> NotIndexed(s.st, id))
  {
    var s := run[|run|-1];
    hide Next, IsRun, IndexDoc, DeleteDoc, LoadedInverted, AlreadyIndexed, NotIndexed, NoEmptyTerms;
    AcceptedSnapshotIsCurrent(run, |run| - 1);
    RunsHaveNoEmptyTerms(run);
    IndexChangesNothing(s.st, id, doc);
    DeleteChangesNothing(s.st, id);
    HalfwayNext(s, id, doc);
  }

  // ------------------------------------------------------------------
  // A flush in two steps
  // ------------------------------------------------------------------

  /** The fields a flush has captured, before it reads the version and stores them. One flush at a time. */
  datatype Flushing = Flushing(s: System, flight: Option<Fields>)

  ghost predicate Captures(a: Flushing, b: Flushing) {
    && a.flight.None? && b.s == a.s
    && b.flight.Some? && b.flight.value != map[] && Captured(a.s.st, b.flight.value)
  }

  /** The version is read only after the locks are released. */
  predicate Commits(a: Flushing, b: Flushing) {
    && a.flight.Some?
    && b == Flushing(a.s.(fields := a.s.fields + a.flight.value, snapVersion := Some(a.s.version)), None)
  }

  /** Of these fields, the ones stored before the failure. */
  function Part(fields: Fields, some: set<string>): Fields { map f | f in some && f in fields :: fields[f] }

  ghost predicate CommitFails(a: Flushing, b: Flushing) {
    && a.flight.Some? && b.flight.None?
    && exists some :: b.s == a.s.(fields := a.s.fields + Part(a.flight.value, some))
  }

  /** Memory and the store of snapshots lose the index, or are rebuilt, whether a flush is under way or not. */
  ghost predicate Wipes(a: Flushing, b: Flushing) {
    b.flight == a.flight && (DropsIndex(a.s, b.s) || Rebuilds(a.s, b.s))
  }

  /** A write, a version step or, while no flush is under way, a flush of nothing. */
  ghost predicate MemoryMoves(a: Flushing, b: Flushing) {
    && b.flight == a.flight
    && (|| Writes(a.s, b.s) || Bumps(a.s, b.s)
        || (a.flight.None? && a.s.st.inverted == map[] && Flushes(a.s, b.s)))
  }

  ghost predicate FlushingNext(a: Flushing, b: Flushing) {
    Captures(a, b) || Commits(a, b) || CommitFails(a, b) || Wipes(a, b) || MemoryMoves(a, b)
  }

  ghost predicate IsFlushingRun(run: seq<Flushing>) {
    run != [] && run[0] == Flushing(BEGIN, None) && forall k :: 0 < k < |run| ==> FlushingNext(run[k-1], run[k])
  }

  /** What a load would take is the current map, unless a write's version step is still to come. */
  predicate Current(s: System) {
    Accepted(s) && s.pending == 0 ==> LoadedInverted(s.fields) == s.st.inverted
  }

  /** Stored versions are never ahead, and no flush has captured nothing. */
  predicate Plausible(a: Flushing) {
    && (a.s.snapVersion.Some? ==> a.s.snapVersion.value <= a.s.version)
    && (a.flight.Some? ==> a.flight.value != map[])
  }

  /** With the current version and no write halfway, both what is stored and what is captured give the current map. */
  predicate AllCurrent(a: Flushing) {
    a.s.snapVersion == Some(a.s.version) && a.s.pending == 0 ==>
      && LoadedInverted(a.s.fields) == a.s.st.inverted
      && (a.flight.Some? ==> LoadedInverted(a.flight.value) == a.s.st.inverted)
  }

  lemma {:induction false} LoadedOverlay(a: Fields, b: Fields)
    ensures LoadedInverted(a + b) == LoadedInverted(a) + LoadedInverted(b)
  {
    hide LoadedTerms;
  }

  lemma {:induction false} LoadedPart(a: Fields, b: Fields, some: set<string>)
    requires LoadedInverted(a) == LoadedInverted(b)
    ensures LoadedInverted(a + Part(b, some)) == LoadedInverted(a)
  {
    LoadedOverlay(a, Part(b, some));
    hide LoadedTerms;
    forall f | f in Part(b, some) ensures f in a && LoadedTerms(Part(b, some)[f]) == LoadedTerms(a[f]) {
      assert f in LoadedInverted(b) && LoadedInverted(b)[f] == LoadedTerms(b[f]);
      assert f in LoadedInverted(a);
    }
  }

  lemma {:induction false} WriteKeepsKeys(s: System, s': System)
    requires Writes(s, s')
    ensures s.st.inverted.Keys <= s'.st.inverted.Keys && s'.pending > 0
    ensures s'.version == s.version && s'.fields == s.fields && s'.snapVersion == s.snapVersion
  {
    if id, doc :| s' == s.(st := IndexDoc(s.st, id, doc), pending := s.pending + 1) {
      FieldsStayKnown(s.st, id, doc);
    } else {
      var id :| s' == s.(st := DeleteDoc(s.st, id), pending := s.pending + 1);
      FieldsStayKnown(s.st, id, map[]);
    }
  }

  lemma {:induction false} CaptureKeeps(a: Flushing, b: Flushing)
    requires Plausible(a) && Captures(a, b)
    ensures Plausible(b) && (AllCurrent(a) ==> AllCurrent(b))
  {
    LoadReturnsCaptured(a.s.st, b.flight.value);
    hide FieldCaptured, LoadedInverted;
  }

  /** A commit stores what was captured over what is there. */
  lemma {:induction false} CommitKeeps(a: Flushing, b: Flushing)
    requires Plausible(a) && Commits(a, b)
    ensures Plausible(b) && Accepted(b.s)
    ensures LoadedInverted(b.s.fields) == LoadedInverted(a.s.fields) + LoadedInverted(a.flight.value)
    ensures a.s.pending == 0 ==> (AllCurrent(b) <==> Current(b.s))
    ensures a.s.pending > 0 ==> AllCurrent(b)
  {
    LoadedOverlay(a.s.fields, a.flight.value);
    var f :| f in a.flight.value;
    assert f in b.s.fields;
    hide LoadedInverted;
  }

  lemma {:induction false} FailKeeps(a: Flushing, b: Flushing)
    requires Plausible(a) && CommitFails(a, b)
    ensures Plausible(b) && (AllCurrent(a) ==> AllCurrent(b))
  {
    var some :| b.s == a.s.(fields := a.s.fields + Part(a.flight.value, some));
    if AllCurrent(a) && a.s.snapVersion == Some(a.s.version) && a.s.pending == 0 {
      LoadedPart(a.s.fields, a.flight.value, some);
    }
    hide LoadedInverted;
  }

  lemma {:induction false} MoveKeeps(a: Flushing, b: Flushing)
    requires Plausible(a) && (MemoryMoves(a, b) || Wipes(a, b))
    ensures Plausible(b) && (AllCurrent(a) ==> AllCurrent(b))
  {
    if Writes(a.s, b.s) {
      WriteKeepsKeys(a.s, b.s);
    }
    hide LoadedInverted, Writes, Rebuilt, Captured;
  }

  lemma {:induction false} StepKeepsPlausible(a: Flushing, b: Flushing)
    requires Plausible(a) && FlushingNext(a, b)
    ensures Plausible(b)
    ensures AllCurrent(a) && (Commits(a, b) ==> Current(b.s)) ==> AllCurrent(b)
  {
    hide Plausible, AllCurrent, Current, LoadedInverted, Captured, Writes, Flushes, Rebuilds;
    if Captures(a, b) {
      CaptureKeeps(a, b);
    } else if Commits(a, b) {
      CommitKeeps(a, b);
    } else if CommitFails(a, b) {
      FailKeeps(a, b);
    } else {
      MoveKeeps(a, b);
    }
  }

  lemma {:induction false} RunsArePlausible(run: seq<Flushing>)
    requires IsFlushingRun(run)
    ensures Plausible(run[|run|-1])
  {
    if |run| > 1 {
      var n := |run| - 1;
      RunsArePlausible(run[..n]);
      hide Plausible, FlushingNext;
      assert run[..n][n - 1] == run[n - 1];
      StepKeepsPlausible(run[n - 1], run[n]);
    }
  }

  /** From the capture behind step i to the commit in front of step k. */
  ghost predicate FlushSpan(run: seq<Flushing>, i: int, k: int) {
    && 0 <= i && i + 1 < k < |run| && Captures(run[i], run[i + 1]) && Commits(run[k - 1], run[k])
    && forall n :: i + 1 <= n < k ==> run[n].flight == run[i + 1].flight
  }

  lemma {:induction false} FlightSince(run: seq<Flushing>, n: nat) returns (i: nat)
    requires IsFlushingRun(run) && n < |run| && run[n].flight.Some?
    ensures i + 1 <= n && Captures(run[i], run[i + 1])
    ensures forall m :: i + 1 <= m <= n ==> run[m].flight == run[n].flight
  {
    hide Captured, Writes, Rebuilds, Flushes;
    assert n > 0 && FlushingNext(run[n - 1], run[n]);
    if Captures(run[n - 1], run[n]) {
      i := n - 1;
    } else {
      i := FlightSince(run, n - 1);
    }
  }

  /** What a load takes after the commit: the captured map over what was left in the store. */
  function Overlaid(run: seq<Flushing>, i: int, k: int): map<string, Terms>
    requires 0 <= i < |run| && 0 < k <= |run|
  {
    LoadedInverted(run[k - 1].s.fields) + run[i].s.st.inverted
  }

  lemma {:induction false} CaptureLoads(a: Flushing, b: Flushing)
    requires Captures(a, b)
    ensures b.flight.Some? && LoadedInverted(b.flight.value) == a.s.st.inverted
    ensures b.flight.value.Keys == a.s.st.inverted.Keys
  {
    LoadReturnsCaptured(a.s.st, b.flight.value);
    hide FieldCaptured, LoadedInverted;
  }

  lemma {:induction false} SpanLoads(run: seq<Flushing>, i: int, k: int)
    requires FlushSpan(run, i, k)
    ensures run[k - 1].flight.Some? && Commits(run[k - 1], run[k])
    ensures LoadedInverted(run[k - 1].flight.value) == run[i].s.st.inverted
  {
    CaptureLoads(run[i], run[i + 1]);
    hide Captures, LoadedInverted;
  }

  lemma {:induction false} PlausibleAt(run: seq<Flushing>, n: nat)
    requires IsFlushingRun(run) && n < |run|
    ensures Plausible(run[n])
  {
    hide FlushingNext, Plausible;
    RunsArePlausible(run[..n + 1]);
  }

  /** After a flush every load takes the snapshot, and gets just that. */
  lemma {:induction false} CommitOfSpan(run: seq<Flushing>, i: int, k: int)
    requires IsFlushingRun(run) && FlushSpan(run, i, k)
    ensures Accepted(run[k].s) && LoadedInverted(run[k].s.fields) == Overlaid(run, i, k)
  {
    assert 0 <= i && 0 < k < |run|;
    assert Overlaid(run, i, k) == LoadedInverted(run[k - 1].s.fields) + run[i].s.st.inverted;
    hide *;
    PlausibleAt(run, k - 1);
    SpanLoads(run, i, k);
    CommitKeeps(run[k - 1], run[k]);
  }

  lemma {:induction false} RunsStayCurrent(run: seq<Flushing>)
    requires IsFlushingRun(run) && forall k :: 0 < k < |run| && Commits(run[k - 1], run[k]) ==> Current(run[k].s)
    ensures AllCurrent(run[|run|-1])
  {
    hide Plausible, FlushingNext, Commits, LoadedInverted, Current;
    if |run| > 1 {
      hide AllCurrent;
      var n := |run| - 1;
      assert run[..n][n - 1] == run[n - 1];
      RunsStayCurrent(run[..n]);
      RunsArePlausible(run[..n]);
      StepKeepsPlausible(run[n - 1], run[n]);
    }
  }

  /** Over all runs, whatever happens while a flush is under way: a load always takes the current map, whenever no write
      is halfway, if and only if every flush that commits while no write is halfway has captured a map that gives the
      current one over what was left in the store. */
  lemma {:induction false} LoadsCurrentExactlyWhen(run: seq<Flushing>)
    requires IsFlushingRun(run)
    ensures (forall k :: 0 <= k < |run| ==> Current(run[k].s)) <==>
            (forall i, k :: FlushSpan(run, i, k) && run[k - 1].s.pending == 0 ==>
               Overlaid(run, i, k) == run[k - 1].s.st.inverted)
  {
    hide FlushingNext, Captured, LoadedInverted, AllCurrent, Overlaid;
    if forall k :: 0 <= k < |run| ==> Current(run[k].s) {
      forall i, k | FlushSpan(run, i, k) && run[k - 1].s.pending == 0
        ensures Overlaid(run, i, k) == run[k - 1].s.st.inverted
      {
        CommitOfSpan(run, i, k);
        assert Current(run[k].s);
      }
    }
    if forall i, k :: FlushSpan(run, i, k) && run[k - 1].s.pending == 0 ==>
                        Overlaid(run, i, k) == run[k - 1].s.st.inverted
    {
      forall k | 0 < k < |run| && Commits(run[k - 1], run[k]) ensures Current(run[k].s) {
        var i := FlightSince(run, k - 1);
        assert FlushSpan(run, i, k);
        CommitOfSpan(run, i, k);
      }
      hide Accepted, Current;
      forall k | 0 <= k < |run| ensures Current(run[k].s) {
        RunsStayCurrent(run[..k + 1]);
        CurrentIfAll(run[k]);
      }
    }
  }

  lemma {:induction false} CurrentIfAll(a: Flushing)
    requires AllCurrent(a)
    ensures Current(a.s)
  {
  }

  /** The store holds no field that the flush has not captured. */
  predicate NoLeftovers(run: seq<Flushing>, i: int, k: int)
    requires 0 <= i < |run| && 0 < k <= |run|
  {
    run[k - 1].s.fields.Keys <= run[i].s.st.inverted.Keys
  }

  lemma {:induction false} OverlaidAll(run: seq<Flushing>, i: int, k: int)
    requires 0 <= i < |run| && 0 < k <= |run| && NoLeftovers(run, i, k)
    ensures Overlaid(run, i, k) == run[i].s.st.inverted
  {
    hide LoadedTerms;
  }

  /** If no flush finds leftovers, that is: if and only if the map is at every such commit as it was captured. */
  lemma {:induction false} WithoutLeftoversExactlyWhen(run: seq<Flushing>)
    requires IsFlushingRun(run)
    requires forall i, k :: FlushSpan(run, i, k) && run[k - 1].s.pending == 0 ==> NoLeftovers(run, i, k)
    ensures (forall k :: 0 <= k < |run| ==> Current(run[k].s)) <==>
            (forall i, k :: FlushSpan(run, i, k) && run[k - 1].s.pending == 0 ==>
               run[i].s.st.inverted == run[k - 1].s.st.inverted)
  {
    hide IsFlushingRun, Captures, Commits, Current, NoLeftovers, Overlaid;
    LoadsCurrentExactlyWhen(run);
    forall i, k | FlushSpan(run, i, k) && run[k - 1].s.pending == 0
      ensures Overlaid(run, i, k) == run[i].s.st.inverted
    {
      OverlaidAll(run, i, k);
    }
  }

  // ------------------------------------------------------------------
  // Deletions and rebuilds during a flush
  // ------------------------------------------------------------------

  /** The index was deleted or rebuilt while the flush that is under way in state n was so. */
  ghost predicate WipedInFlight(run: seq<Flushing>, n: int) {
    exists w :: WipedAt(run, w, n)
  }

  ghost predicate WipedAt(run: seq<Flushing>, w: int, n: int) {
    && 0 < w <= n < |run| && run[n].flight.Some? && Wipes(run[w - 1], run[w])
    && forall m :: w - 1 <= m <= n ==> run[m].flight == run[n].flight
  }

  /** In step j such a flush stored some of its fields, or all. */
  ghost predicate StoresLate(run: seq<Flushing>, j: int) {
    0 < j < |run| && (Commits(run[j - 1], run[j]) || CommitFails(run[j - 1], run[j])) && WipedInFlight(run, j - 1)
  }

  /** Stored fields are known to the map, or some flush has stored late and nothing has been wiped since; captured ones
      are known, or something was wiped since the capture. */
  ghost predicate Accounted(run: seq<Flushing>, n: int)
    requires 0 <= n < |run|
  {
    && (run[n].s.fields.Keys <= run[n].s.st.inverted.Keys || LateSince(run, n))
    && (run[n].flight.Some? ==> run[n].flight.value.Keys <= run[n].s.st.inverted.Keys || WipedInFlight(run, n))
  }

  ghost predicate LateSince(run: seq<Flushing>, n: int)
    requires n < |run|
  {
    exists j :: j <= n && StoresLate(run, j) && forall m :: j < m <= n ==> !Wipes(run[m - 1], run[m])
  }

  lemma {:induction false} StillWiped(run: seq<Flushing>, n: nat)
    requires 0 < n < |run| && WipedInFlight(run, n - 1) && run[n].flight == run[n - 1].flight
    ensures WipedInFlight(run, n)
  {
    var w :| WipedAt(run, w, n - 1);
    hide Wipes;
    assert WipedAt(run, w, n);
  }

  lemma {:induction false} StillLate(run: seq<Flushing>, n: nat)
    requires 0 < n < |run| && LateSince(run, n - 1) && !Wipes(run[n - 1], run[n])
    ensures LateSince(run, n)
  {
    hide Wipes, StoresLate;
  }

  lemma {:induction false} StoreAccounted(run: seq<Flushing>, n: nat)
    requires 0 < n < |run| && Accounted(run, n - 1)
    requires Commits(run[n - 1], run[n]) || CommitFails(run[n - 1], run[n])
    ensures Accounted(run, n)
  {
    var a, b := run[n - 1], run[n];
    assert b.s.fields.Keys <= a.s.fields.Keys + a.flight.value.Keys && b.s.st == a.s.st && b.flight.None?;
    hide WipedInFlight, Wipes, LateSince;
    if WipedInFlight(run, n - 1) {
      assert StoresLate(run, n);
      JustLate(run, n);
    } else if LateSince(run, n - 1) {
      NoWipe(a, b);
      StillLate(run, n);
    }
  }

  lemma {:induction false} NoWipe(a: Flushing, b: Flushing)
    requires a.flight.Some? && b.flight.None?
    ensures !Wipes(a, b)
  {
  }

  lemma {:induction false} JustLate(run: seq<Flushing>, n: nat)
    requires n < |run| && StoresLate(run, n)
    ensures LateSince(run, n)
  {
    hide StoresLate, Wipes;
  }

  lemma {:induction false} WipeAccounted(run: seq<Flushing>, n: nat)
    requires 0 < n < |run| && Wipes(run[n - 1], run[n])
    ensures Accounted(run, n)
  {
    hide LateSince, Rebuilt;
    if run[n].flight.Some? {
      assert WipedAt(run, n, n);
    }
  }

  lemma {:induction false} CaptureAccounted(run: seq<Flushing>, n: nat)
    requires 0 < n < |run| && Accounted(run, n - 1) && Captures(run[n - 1], run[n])
    ensures Accounted(run, n)
  {
    assert run[n].flight.value.Keys == run[n - 1].s.st.inverted.Keys;
    assert !Wipes(run[n - 1], run[n]);
    hide LateSince, WipedInFlight, Wipes, Captured;
    if LateSince(run, n - 1) {
      StillLate(run, n);
    }
  }

  lemma {:induction false} MoveAccounted(run: seq<Flushing>, n: nat)
    requires 0 < n < |run| && Accounted(run, n - 1) && MemoryMoves(run[n - 1], run[n])
    requires !Wipes(run[n - 1], run[n])
    ensures Accounted(run, n)
  {
    if Writes(run[n - 1].s, run[n].s) {
      WriteKeepsKeys(run[n - 1].s, run[n].s);
    }
    hide LateSince, WipedInFlight, Wipes, Writes;
    if LateSince(run, n - 1) {
      StillLate(run, n);
    }
    if WipedInFlight(run, n - 1) {
      StillWiped(run, n);
    }
  }

  lemma {:induction false} RunStep(run: seq<Flushing>, n: nat)
    requires IsFlushingRun(run) && 0 < n < |run|
    ensures FlushingNext(run[n - 1], run[n])
  {
    hide FlushingNext;
  }

  lemma {:induction false} BeginAccounted(run: seq<Flushing>)
    requires IsFlushingRun(run)
    ensures Accounted(run, 0)
  {
    hide FlushingNext;
  }

  lemma {:induction false} AlwaysAccounted(run: seq<Flushing>, n: nat)
    requires IsFlushingRun(run) && n < |run|
    ensures Accounted(run, n)
  {
    hide IsFlushingRun, Accounted, Captures, Commits, CommitFails, Wipes, MemoryMoves;
    if n == 0 {
      BeginAccounted(run);
    } else {
      AlwaysAccounted(run, n - 1);
      RunStep(run, n);
      if Wipes(run[n - 1], run[n]) {
        WipeAccounted(run, n);
      } else if Captures(run[n - 1], run[n]) {
        CaptureAccounted(run, n);
      } else if MemoryMoves(run[n - 1], run[n]) {
        MoveAccounted(run, n);
      } else {
        StoreAccounted(run, n);
      }
    }
  }

  lemma {:induction false} StoreInFlight(a: Flushing, b: Flushing)
    requires FlushingNext(a, b) && a.flight.Some? && b.flight == a.flight
    ensures if Wipes(a, b) then b.s.fields == map[] else b.s.fields == a.s.fields
  {
    if Writes(a.s, b.s) {
      WriteKeepsKeys(a.s, b.s);
    }
    hide Writes, Rebuilt, Captured, Flushes;
  }

  /** While a flush is under way nothing is stored, and a deletion or a rebuild clears the store. */
  lemma {:induction false} StoreDuringFlight(run: seq<Flushing>, from: nat, n: nat)
    requires IsFlushingRun(run) && from <= n < |run| && run[from].flight.Some?
    requires forall m :: from <= m <= n ==> run[m].flight == run[from].flight
    ensures run[n].s.fields == run[from].s.fields || run[n].s.fields == map[]
    ensures (exists w :: from < w <= n && Wipes(run[w - 1], run[w])) ==> run[n].s.fields == map[]
  {
    hide FlushingNext, Wipes;
    if from < n {
      StoreDuringFlight(run, from, n - 1);
      StoreInFlight(run[n - 1], run[n]);
    }
  }

  /** A flush finds leftovers only if an earlier one has stored late, and nothing has been wiped since. */
  lemma {:induction false} LeftoversComeLate(run: seq<Flushing>, i: int, k: int)
    requires IsFlushingRun(run) && FlushSpan(run, i, k) && !NoLeftovers(run, i, k)
    ensures LateSince(run, i)
    ensures forall w :: i + 1 < w < k ==> !Wipes(run[w - 1], run[w])
  {
    AlwaysAccounted(run, i);
    StoreDuringFlight(run, i + 1, k - 1);
    hide Captured, LateSince, WipedInFlight, FlushingNext, Wipes, Commits;
  }

  lemma {:induction false} OverlaidNothing(run: seq<Flushing>, i: int, k: int)
    requires 0 <= i < |run| && 0 < k <= |run| && run[k - 1].s.fields == map[]
    ensures Overlaid(run, i, k) == run[i].s.st.inverted
  {
    assert map[] + run[i].s.st.inverted == run[i].s.st.inverted;
  }

  /** Whenever an index is deleted or rebuilt during a flush, and whatever becomes of it until the commit, the map of
      the capture comes back: every load accepts it and gets nothing else. */
  lemma {:induction false} WipedDuringFlushComesBack(run: seq<Flushing>, i: int, k: int, w: int)
    requires IsFlushingRun(run) && FlushSpan(run, i, k) && i + 1 < w < k && Wipes(run[w - 1], run[w])
    ensures Accepted(run[k].s) && LoadedInverted(run[k].s.fields) == run[i].s.st.inverted
  {
    hide IsFlushingRun, Wipes, Accepted, LoadedInverted, Overlaid, Commits;
    CommitOfSpan(run, i, k);
    assert run[i + 1].flight.Some?;
    hide Captures;
    StoreDuringFlight(run, i + 1, k - 1);
    OverlaidNothing(run, i, k);
  }

  /** The store of snapshots is cleared. */
  ghost predicate Clears(a: Flushing, b: Flushing) {
    Wipes(a, b) || (a.flight.None? && a.s.st.inverted == map[] && Flushes(a.s, b.s))
  }

  /** Otherwise a stored field stays stored. */
  lemma {:induction false} FieldsStayStored(run: seq<Flushing>, n: nat, m: nat)
    requires IsFlushingRun(run) && n <= m < |run|
    requires forall j :: n < j <= m ==> !Clears(run[j - 1], run[j])
    ensures run[n].s.fields.Keys <= run[m].s.fields.Keys
  {
    if n < m {
      FieldsStayStored(run, n, m - 1);
      var a, b := run[m - 1], run[m];
      assert FlushingNext(a, b) && !Clears(a, b);
      hide Captured, Wipes, Flushes;
      if Writes(a.s, b.s) {
        WriteKeepsKeys(a.s, b.s);
      }
      hide Writes;
    }
  }

  /** A leftover spoils every later flush, disturbed or not, until the store is cleared or the field known again: what
      is stored is accepted, and has a field the map has not. */
  lemma {:induction false} LeftoverSpoilsFlush(run: seq<Flushing>, n: nat, i: int, k: int, f: string)
    requires IsFlushingRun(run) && FlushSpan(run, i, k) && n < k
    requires f in run[n].s.fields && f !in run[k - 1].s.st.inverted
    requires forall j :: n < j < k ==> !Clears(run[j - 1], run[j])
    ensures Accepted(run[k].s) && f in LoadedInverted(run[k].s.fields) && f !in run[k].s.st.inverted
  {
    assert 0 <= i && 0 < k < |run|;
    hide IsFlushingRun, FlushSpan, Clears, Accepted, LoadedTerms;
    FieldsStayStored(run, n, k - 1);
    CommitOfSpan(run, i, k);
    SpanLoads(run, i, k);
  }

  /** An index a is captured and then deleted; an index b is made in its place, and while this write is halfway the
      flush commits. After the version step another flush captures and commits b. */
  function DeletedWhileFlushed(a: State, c: Fields, b: State, c': Fields): seq<Flushing> {
    var s1 := BEGIN.(st := a, pending := 1);
    var s2 := s1.(version := 1, pending := 0);
    var s4 := s2.(st := EMPTY);
    var s5 := s4.(st := b, pending := 1);
    var s6 := s5.(fields := c, snapVersion := Some(1));
    var s7 := s6.(version := 2, pending := 0);
    var s9 := s7.(fields := c + c', snapVersion := Some(2));
    [Flushing(BEGIN, None), Flushing(s1, None), Flushing(s2, None), Flushing(s2, Some(c)), Flushing(s4, Some(c)),
     Flushing(s5, Some(c)), Flushing(s6, None), Flushing(s7, None), Flushing(s7, Some(c')), Flushing(s9, None)]
  }

  lemma {:induction false} FirstCaptured(id: string, doc: Doc, c: Fields)
    requires doc != map[] && Captured(IndexDoc(EMPTY, id, doc), c)
    ensures IndexDoc(EMPTY, id, doc).inverted.Keys == c.Keys == doc.Keys && c != map[]
  {
  }

  lemma {:induction false} WriteIsNext(s: System, id: string, doc: Doc, flight: Option<Fields>)
    ensures FlushingNext(Flushing(s, flight),
                         Flushing(s.(st := IndexDoc(s.st, id, doc), pending := s.pending + 1), flight))
  {
    hide IndexDoc, Flushes;
    assert Writes(s, s.(st := IndexDoc(s.st, id, doc), pending := s.pending + 1));
  }

  lemma {:induction false} FirstStepsOfIt(id: string, doc: Doc, c: Fields, b: State, c': Fields)
    requires doc != map[] && Captured(IndexDoc(EMPTY, id, doc), c)
    ensures var run := DeletedWhileFlushed(IndexDoc(EMPTY, id, doc), c, b, c');
      && FlushingNext(run[0], run[1]) && FlushingNext(run[1], run[2])
      && FlushingNext(run[2], run[3]) && FlushingNext(run[3], run[4])
  {
    hide IndexDoc, Captured, Flushes, Rebuilds, Writes, CommitFails;
    FirstCaptured(id, doc, c);
    WriteIsNext(BEGIN, id, doc, None);
  }

  lemma {:induction false} LastStepsOfIt(a: State, c: Fields, id: string, doc: Doc, c': Fields)
    requires doc != map[] && Captured(IndexDoc(EMPTY, id, doc), c')
    ensures var run := DeletedWhileFlushed(a, c, IndexDoc(EMPTY, id, doc), c');
      && FlushingNext(run[4], run[5]) && FlushingNext(run[5], run[6]) && FlushingNext(run[6], run[7])
      && FlushingNext(run[7], run[8]) && FlushingNext(run[8], run[9])
  {
    hide IndexDoc, Captured, Flushes, Rebuilds, Writes, CommitFails;
    FirstCaptured(id, doc, c');
    WriteIsNext(System(EMPTY, 1, 0, map[], None), id, doc, Some(c));
    assert map[] + c == c;
  }

  lemma {:induction false} TenStates(run: seq<Flushing>)
    requires |run| == 10 && run[0] == Flushing(BEGIN, None)
    requires FlushingNext(run[0], run[1]) && FlushingNext(run[1], run[2]) && FlushingNext(run[2], run[3])
    requires FlushingNext(run[3], run[4]) && FlushingNext(run[4], run[5]) && FlushingNext(run[5], run[6])
    requires FlushingNext(run[6], run[7]) && FlushingNext(run[7], run[8]) && FlushingNext(run[8], run[9])
    ensures IsFlushingRun(run)
  {
    hide FlushingNext;
  }

  /** Its only flush that commits with no write halfway is the last. */
  lemma {:induction false} DeletedWhileFlushedSpans(a: State, c: Fields, b: State, c': Fields, i: int, k: int)
    requires var run := DeletedWhileFlushed(a, c, b, c'); FlushSpan(run, i, k) && run[k - 1].s.pending == 0
    ensures i == 7 && k == 9
  {
    var run := DeletedWhileFlushed(a, c, b, c');
    hide Captured;
    assert run[6].flight.None?;
  }

  lemma {:induction false} DeletedWhileFlushedEnds(a: State, c: Fields, b: State, c': Fields)
    ensures var run := DeletedWhileFlushed(a, c, b, c');
      && |run| == 10 && run[0] == Flushing(BEGIN, None) && run[7].s.st == run[8].s.st == b
      && run[9].s == System(b, 2, 0, c + c', Some(2))
  {
  }

  /** For any two documents of which one has a field the other has not, in such a run every flush that commits with no
      write halfway finds the map as it captured it, and yet the last snapshot is accepted with the deleted field. */
  lemma {:induction false} LeftoverOutlivesFlush(id: string, doc: Doc, c: Fields, id': string, doc': Doc, c': Fields,
                                                 f: string) returns (run: seq<Flushing>)
    requires f in doc && f !in doc' && doc' != map[]
    requires Captured(IndexDoc(EMPTY, id, doc), c) && Captured(IndexDoc(EMPTY, id', doc'), c')
    ensures IsFlushingRun(run)
    ensures forall i, k :: FlushSpan(run, i, k) && run[k - 1].s.pending == 0 ==>
              run[i].s.st.inverted == run[k - 1].s.st.inverted
    ensures var s := run[|run|-1].s;
      Accepted(s) && s.pending == 0 && f in LoadedInverted(s.fields) && f !in s.st.inverted
  {
    hide IndexDoc, Captured, IsFlushingRun, FlushingNext, DeletedWhileFlushed, Captures, Commits, LoadedTerms;
    var a, b := IndexDoc(EMPTY, id, doc), IndexDoc(EMPTY, id', doc');
    FirstCaptured(id, doc, c);
    FirstCaptured(id', doc', c');
    run := DeletedWhileFlushed(a, c, b, c');
    FirstStepsOfIt(id, doc, c, b, c');
    LastStepsOfIt(a, c, id', doc', c');
    DeletedWhileFlushedEnds(a, c, b, c');
    TenStates(run);
    assert f in run[9].s.fields;
    forall i, k | FlushSpan(run, i, k) && run[k - 1].s.pending == 0
      ensures run[i].s.st.inverted == run[k - 1].s.st.inverted
    {
      DeletedWhileFlushedSpans(a, c, b, c', i, k);
    }
  }

  // ------------------------------------------------------------------
  // The loops
  // ------------------------------------------------------------------

  /** Insertion by id stands for the library sort: the ids of one token differ. */
  method Insert(es: seq<Posting>, e: Posting) returns (r: seq<Posting>)
    requires Ascending(es) && forall x :: x in es ==> x.id != e.id
    ensures Ascending(r) && forall x :: x in r <==> x in es || x == e
  {
    hide Less;
    var i := 0;
    while i < |es| && Less(es[i].id, e.id)
      invariant i <= |es| && forall k :: 0 <= k < i ==> Less(es[k].id, e.id)
    {
      i := i + 1;
    }
    forall k | i <= k < |es| ensures Less(e.id, es[k].id) {
      assert es[i] in es;
      LessTotal(es[i].id, e.id);
      if k > i {
        LessTransitive(e.id, es[i].id, es[k].id);
      }
    }
    r := es[..i] + [e] + es[i..];
    InsertedMembers(es, i, e);
  }

  lemma {:induction false} InsertedMembers(es: seq<Posting>, i: nat, e: Posting)
    requires i <= |es|
    ensures forall x :: x in es[..i] + [e] + es[i..] <==> x in es || x == e
  {
    assert es == es[..i] + es[i..];
  }

  method CaptureEntries(ids: set<string>, ps: seq<Posting>) returns (es: seq<Posting>)
    ensures EntriesFor(es, ids, ps)
  {
    es := [];
    var todo := ids;
    while todo != {}
      invariant todo <= ids && EntriesFor(es, ids - todo, ps)
      decreases todo
    {
      var id :| id in todo;
      es := Insert(es, Posting(id, FrequencyOf(ps, id)));
      todo := todo - {id};
    }
    assert ids - {} == ids;
  }

  method CaptureField(st: State, f: string) returns (s: FieldSnapshot)
    requires f in st.inverted
    ensures FieldCaptured(st, f, s)
  {
    var terms := st.inverted[f];
    var lists := ListsOf(st, f);
    var postings: map<string, seq<Posting>> := map[];
    var todo := terms.Keys;
    while todo != {}
      invariant todo <= terms.Keys && postings.Keys == terms.Keys - todo
      invariant forall t :: t in postings ==> EntriesFor(postings[t], terms[t], PostingsOf(lists, t))
      decreases todo
    {
      var t :| t in todo;
      var es := CaptureEntries(terms[t], PostingsOf(lists, t));
      postings := postings[t := es];
      todo := todo - {t};
    }
    s := FieldSnapshot(postings, LengthsOf(st, f));
  }

  method CaptureFields(st: State) returns (fields: Fields)
    ensures Captured(st, fields)
  {
    fields := map[];
    var todo := st.inverted.Keys;
    while todo != {}
      invariant todo <= st.inverted.Keys && fields.Keys == st.inverted.Keys - todo
      invariant forall f :: f in fields ==> FieldCaptured(st, f, fields[f])
      decreases todo
    {
      var f :| f in todo;
      var s := CaptureField(st, f);
      fields := fields[f := s];
      todo := todo - {f};
    }
  }

  method LoadField(s: FieldSnapshot) returns (terms: Terms, lists: Lists)
    ensures terms == LoadedTerms(s) && lists == LoadedLists(s)
  {
    terms, lists := map[], map[];
    var todo := s.postings.Keys;
    while todo != {}
      invariant todo <= s.postings.Keys
      invariant terms == map t | t in s.postings && t !in todo :: IdSet(s.postings[t])
      invariant lists == map t | t in s.postings && t !in todo :: PostingList(s.postings[t], |s.postings[t]|)
      decreases todo
    {
      var t :| t in todo;
      var es := s.postings[t];
      var ids, ps := {}, [];
      for i := 0 to |es|
        invariant ids == IdSet(es[..i]) && ps == es[..i]
      {
        assert es[..i+1] == es[..i] + [es[i]];
        assert IdSet(es[..i] + [es[i]]) == IdSet(es[..i]) + {es[i].id} by { IdSetSnoc(es[..i], es[i]); }
        ids := ids + {es[i].id};
        ps := ps + [es[i]];
      }
      assert es[..|es|] == es;
      terms := terms[t := ids];
      lists := lists[t := PostingList(ps, |es|)];
      todo := todo - {t};
    }
  }

  lemma {:induction false} OneMoreInverted(fields: Fields, f: string, s: FieldSnapshot)
    requires f !in fields
    ensures LoadedInverted(fields[f := s]) == LoadedInverted(fields)[f := LoadedTerms(s)]
  {
    hide LoadedTerms;
  }

  lemma {:induction false} OneMoreLists(fields: Fields, f: string, s: FieldSnapshot)
    requires f !in fields
    ensures AllLoadedLists(fields[f := s]) == AllLoadedLists(fields)[f := LoadedLists(s)]
  {
    hide LoadedLists;
  }

  lemma {:induction false} OneMoreLengths(fields: Fields, f: string, s: FieldSnapshot)
    requires f !in fields
    ensures LoadedLengths(fields[f := s])
         == if s.lengths != map[] then LoadedLengths(fields)[f := s.lengths] else LoadedLengths(fields)
  {
  }

  method LoadFields(fields: Fields)
    returns (inverted: map<string, Terms>, lists: map<string, Lists>, lengths: map<string, map<string, nat>>)
    ensures inverted == LoadedInverted(fields) && lists == AllLoadedLists(fields) && lengths == LoadedLengths(fields)
  {
    inverted, lists, lengths := map[], map[], map[];
    ghost var done: Fields := map[];
    hide LoadedTerms, LoadedLists, LoadedInverted, AllLoadedLists, LoadedLengths;
    assert inverted == LoadedInverted(done) && lists == AllLoadedLists(done) && lengths == LoadedLengths(done) by {
      NothingLoaded();
    }
    var todo := fields.Keys;
    while todo != {}
      invariant todo <= fields.Keys && done == fields - todo
      invariant inverted == LoadedInverted(done) && lists == AllLoadedLists(done) && lengths == LoadedLengths(done)
      decreases todo
    {
      var f :| f in todo;
      var terms, ls := LoadField(fields[f]);
      OneMoreInverted(done, f, fields[f]);
      OneMoreLists(done, f, fields[f]);
      OneMoreLengths(done, f, fields[f]);
      inverted, lists := inverted[f := terms], lists[f := ls];
      if fields[f].lengths != map[] {
        lengths := lengths[f := fields[f].lengths];
      }
      done := done[f := fields[f]];
      todo := todo - {f};
    }
    assert done == fields;
  }

  lemma {:induction false} NothingLoaded()
    ensures LoadedInverted(map[]) == map[] && AllLoadedLists(map[]) == map[] && LoadedLengths(map[]) == map[]
  {
  }

  method StoreFields(fields: Fields, captured: Fields) returns (r: Fields)
    ensures r == fields + captured
  {
    r := fields;
    var todo := captured.Keys;
    while todo != {}
      invariant todo <= captured.Keys && r == fields + (captured - todo)
      decreases todo
    {
      var f :| f in todo;
      r := r[f := captured[f]];
      todo := todo - {f};
    }
    assert captured - {} == captured;
  }

  /** rebuildDocInvertedFromTokens: a field without tokens only becomes known. */
  function RebuiltDoc(m: map<string, Terms>, id: string, doc: Doc): map<string, Terms> {
    map f | f in m.Keys + doc.Keys ::
      if DocHasText(doc, f) then AddTerms(TermsAt(m, f), Words(doc[f]), id) else TermsAt(m, f)
  }

  method RebuildDoc(m: map<string, Terms>, id: string, doc: Doc) returns (r: map<string, Terms>)
    ensures r == RebuiltDoc(m, id, doc)
  {
    hide AddTerms, Words;
    r := m;
    var todo := doc.Keys;
    while todo != {}
      invariant todo <= doc.Keys
      invariant r.Keys == m.Keys + (doc.Keys - todo)
      invariant forall f :: f in r ==> r[f] == if f !in todo then RebuiltDoc(m, id, doc)[f] else m[f]
      decreases todo
    {
      var f :| f in todo;
      var terms := TermsAt(r, f);
      assert terms == TermsAt(m, f);
      if doc[f].Text? {
        terms := Engine.AddWords(terms, Words(doc[f]), id);
      }
      r := r[f := terms];
      todo := todo - {f};
    }
  }

  lemma {:induction false} OneMoreRebuilt(docs: map<string, Doc>, m: map<string, Terms>, id: string, doc: Doc)
    requires Rebuilt(docs, m) && id !in docs
    ensures Rebuilt(docs[id := doc], RebuiltDoc(m, id, doc))
  {
    var docs', m' := docs[id := doc], RebuiltDoc(m, id, doc);
    hide Words;
    forall f ensures f in m' <==> FieldKnown(docs', f) {
      assert f in doc ==> id in docs' && f in docs'[id];
      if FieldKnown(docs, f) {
        var x :| x in docs && f in docs[x];
        assert x in docs' && f in docs'[x];
      }
      if FieldKnown(docs', f) && f !in doc {
        var x :| x in docs' && f in docs'[x];
        assert x in docs && f in docs[x];
      }
    }
    forall f, t, x ensures x in IdsOf(TermsAt(m', f), t) <==> HasText(docs', x, f) && HasWord(docs', x, f, t) {
      assert x in IdsOf(TermsAt(m, f), t) <==> HasText(docs, x, f) && HasWord(docs, x, f, t);
    }
  }

  /** The document scan of RebuildInverted. */
  method RebuildInverted(docs: map<string, Doc>) returns (inverted: map<string, Terms>)
    ensures Rebuilt(docs, inverted)
  {
    inverted := map[];
    var todo := docs.Keys;
    while todo != {}
      invariant todo <= docs.Keys && Rebuilt(docs - todo, inverted)
      decreases todo
    {
      var id :| id in todo;
      OneMoreRebuilt(docs - todo, inverted, id, docs[id]);
      hide Rebuilt;
      assert (docs - todo)[id := docs[id]] == docs - (todo - {id});
      inverted := RebuildDoc(inverted, id, docs[id]);
      todo := todo - {id};
    }
    assert docs - {} == docs;
  }

  lemma {:induction false} IdSetSnoc(es: seq<Posting>, e: Posting)
    ensures IdSet(es + [e]) == IdSet(es) + {e.id}
  {
    assert e in es + [e] && forall x :: x in es ==> x in es + [e];
  }

  class SnapshotEngine {
    var st: State
    var version: nat
    var pending: nat
    var fields: Fields
    var snapVersion: Option<nat>

    constructor ()
      ensures Value() == BEGIN
    {
      st, version, pending, fields, snapVersion := EMPTY, 0, 0, map[], None;
    }

    function Value(): System
      reads this
    {
      System(st, version, pending, fields, snapVersion)
    }

    method BumpPostingsVersion()
      requires pending > 0
      modifies this
      ensures Bumps(old(Value()), Value())
    {
      version := version + 1;
      pending := pending - 1;
    }

    method FlushPostingsSnapshot()
      modifies this
      ensures Flushes(old(Value()), Value())
    {
      if st.inverted == map[] {
        fields, snapVersion := map[], None;
        return;
      }
      var captured := CaptureFields(st);
      fields := StoreFields(fields, captured);
      snapVersion := Some(version);
      hide Captured;
      assert Value() == old(Value()).(fields := old(fields) + captured, snapVersion := Some(version));
    }

    /** What is loaded for an engine that has the documents and nothing else of the index, if the snapshot is
        accepted. */
    method LoadPostingsSnapshot(docs: map<string, Doc>) returns (r: Option<State>)
      ensures r == if Accepted(Value()) then Some(LoadedState(docs, fields)) else None
    {
      if snapVersion != Some(version) {
        return None;
      }
      var inverted, lists, lengths := LoadFields(fields);
      if fields == map[] {
        return None;
      }
      r := Some(State(docs, inverted, lists, lengths, map[]));
    }

    /** Memory goes, and the snapshot with it. */
    method DeleteIndex()
      modifies this
      ensures DropsIndex(old(Value()), Value())
    {
      st := EMPTY;
      InvalidatePostingsSnapshot();
    }

    method InvalidatePostingsSnapshot()
      modifies this
      ensures Value() == old(Value()).(fields := map[], snapVersion := None)
    {
      fields, snapVersion := map[], None;
    }
  }
}
