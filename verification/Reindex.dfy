/** The asynchronous reindex job with cancellation and rollback (internal/server/extras.go,
    internal/server/tasks.go). */
module Reindex {
  import opened Collections
  import opened Tokenizer
  import opened InvertedIndex
  import opened IndexRuns
  import Engine

  datatype Status = Running | Completed | Cancelled

  /** Where the job stands: about to poll for cancellation, about to read and store the next document, about to index
      it, about to look at the cancel flag a last time, undoing (so many documents are left to undo), or done. */
  datatype Point = Poll | Copy | Index(doc: Doc) | Recheck | Undo(left: nat) | Done

  datatype Info = Info(status: Status, created: nat, batches: nat, failures: nat)

  datatype Task = Task(
    ids: seq<string>,
    next: nat,
    point: Point,
    written: seq<string>,
    source: map<string, Doc>,
    dest: State,
    store: map<string, Doc>,
    undeleted: set<string>,   // reported on the error output only
    info: Info,
    flag: bool,
    closed: bool)

  const BATCH: nat := 100

  /** One atomic step: of the job (with the outcome of the store operation it performs), of a client that cancels (the
      flag is raised first, then the channel closed), or of a writer that removes a document from the source. */
  datatype Event = Tick(ok: bool) | RaiseFlag | CloseChannel | LoseSource(id: string)

  function Begin(ids: seq<string>, source: map<string, Doc>, dest: State): (r: Task)
    ensures InRange(r)
  {
    Task(ids, 0, Poll, [], source, dest, dest.docs, {}, Info(Running, 0, 0, 0), false, false)
  }

  function CancelAfter(t: Task): Task {
    t.(info := Info(Cancelled, 0, 0, t.info.failures), point := Undo(|t.written|))
  }

  function PollStep(t: Task): Task {
    if t.next < |t.ids| then if t.closed then CancelAfter(t) else t.(point := Copy)
    else if t.flag then CancelAfter(t)
    else t.(info := t.info.(status := Completed), point := Recheck)
  }

  /** A document gone from the source is skipped, and so is one the store refuses. */
  function CopyStep(t: Task, ok: bool): Task
    requires t.next < |t.ids|
  {
    var id := t.ids[t.next];
    if id !in t.source then t.(next := t.next + 1, point := Poll)
    else if !ok then t.(info := t.info.(failures := t.info.failures + 1), next := t.next + 1, point := Poll)
    else t.(store := t.store[id := t.source[id]], point := Index(t.source[id]))
  }

  function IndexStep(t: Task, doc: Doc): Task
    requires t.next < |t.ids|
  {
    var id := t.ids[t.next];
    var batches := if (t.next + 1) % BATCH == 0 then t.info.batches + 1 else t.info.batches;
    t.(dest := IndexDoc(t.dest, id, doc), written := t.written + [id],
       info := t.info.(created := t.info.created + 1, batches := batches), next := t.next + 1, point := Poll)
  }

  function RecheckStep(t: Task): Task {
    if t.flag then CancelAfter(t) else t.(point := Done)
  }

  /** The engine forgets the document even when the store does not. */
  function UndoStep(t: Task, left: nat, ok: bool): Task
    requires left <= |t.written|
  {
    if left == 0 then t.(point := Done)
    else
      var id := t.written[left - 1];
      t.(store := if ok then t.store - {id} else t.store,
         undeleted := if ok then t.undeleted else t.undeleted + {id},
         dest := DeleteDoc(t.dest, id), point := Undo(left - 1))
  }

  /** Between the poll and the index step there is a current document, and no more is undone than was written. */
  predicate InRange(t: Task) {
    && t.next <= |t.ids|
    && (t.point.Copy? || t.point.Index? ==> t.next < |t.ids|)
    && (t.point.Undo? ==> t.point.left <= |t.written|)
  }

  function TickOnce(t: Task, ok: bool): (r: Task)
    requires InRange(t)
    ensures InRange(r)
  {
    match t.point
    case Poll => PollStep(t)
    case Copy => CopyStep(t, ok)
    case Index(doc) => IndexStep(t, doc)
    case Recheck => RecheckStep(t)
    case Undo(left) => UndoStep(t, left, ok)
    case Done => t
  }

  function Step(t: Task, e: Event): (r: Task)
    requires InRange(t)
    ensures InRange(r)
  {
    match e
    case Tick(ok) => TickOnce(t, ok)
    case RaiseFlag => t.(flag := true)
    case CloseChannel => if t.flag then t.(closed := true) else t
    case LoseSource(id) => t.(source := t.source - {id})
  }

  function Exec(t: Task, es: seq<Event>): (r: Task)
    requires InRange(t)
    ensures InRange(r)
  {
    if es == [] then t else Step(Exec(t, es[..|es|-1]), es[|es|-1])
  }

  lemma {:induction false} ExecConcat(t: Task, a: seq<Event>, b: seq<Event>)
    requires InRange(t)
    ensures Exec(t, a + b) == Exec(Exec(t, a), b)
  {
    if b == [] {
      assert a + b == a;
    } else {
      ExecConcat(t, a, b[..|b|-1]);
      assert (a + b)[..|a + b|-1] == a + b[..|b|-1];
    }
  }

  // ------------------------------------------------------------------
  // What copying and rolling back come to
  // ------------------------------------------------------------------

  /** The destination after the documents ws were copied in order. */
  function Copied(dest: State, source: map<string, Doc>, ws: seq<string>): State
    requires forall w :: w in ws ==> w in source
  {
    if ws == [] then dest else IndexDoc(Copied(dest, source, ws[..|ws|-1]), ws[|ws|-1], source[ws[|ws|-1]])
  }

  function Among(source: map<string, Doc>, ws: seq<string>): map<string, Doc> {
    map w | w in ws && w in source :: source[w]
  }

  /** The destination after ws were deleted, last first. */
  function RolledBack(dest: State, ws: seq<string>): State
    decreases |ws|
  {
    if ws == [] then dest else RolledBack(DeleteDoc(dest, ws[|ws|-1]), ws[..|ws|-1])
  }

  lemma {:induction false} CopiedDocs(dest: State, source: map<string, Doc>, ws: seq<string>)
    requires forall w :: w in ws ==> w in source
    ensures Copied(dest, source, ws).docs == dest.docs + Among(source, ws)
  {
    hide IndexDoc;
    if ws == [] {
      assert dest.docs + Among(source, ws) == dest.docs;
    } else {
      var n := |ws| - 1;
      CopiedDocs(dest, source, ws[..n]);
      assert ws == ws[..n] + [ws[n]];
      DocsAfter(Copied(dest, source, ws[..n]), ws[n], source[ws[n]]);
      var prior, w := ws[..n], ws[n];
      hide Copied;
      assert Among(source, ws) == Among(source, prior)[w := source[w]];
      OverlayOne(dest.docs, Among(source, prior), w, source[w]);
    }
  }

  lemma {:induction false} OverlayOne(a: map<string, Doc>, b: map<string, Doc>, w: string, d: Doc)
    ensures (a + b)[w := d] == a + b[w := d]
  {
  }

  lemma {:induction false} RolledBackDocs(dest: State, ws: seq<string>)
    ensures RolledBack(dest, ws).docs == dest.docs - Distinct(ws)
    decreases |ws|
  {
    hide DeleteDoc;
    if ws != [] {
      var n := |ws| - 1;
      assert ws == ws[..n] + [ws[n]];
      DocsAfter(dest, ws[n], map[]);
      RolledBackDocs(DeleteDoc(dest, ws[n]), ws[..n]);
    }
  }

  lemma {:induction false} CopiedExact(dest: State, source: map<string, Doc>, ws: seq<string>)
    requires Exact(dest) && NoRepeats(ws) && forall w :: w in ws ==> w in source && w !in dest.docs
    ensures Exact(Copied(dest, source, ws))
  {
    hide Exact, IndexDoc;
    if ws != [] {
      var n := |ws| - 1;
      CopiedExact(dest, source, ws[..n]);
      CopiedDocs(dest, source, ws[..n]);
      IndexKeepsExact(Copied(dest, source, ws[..n]), ws[n], source[ws[n]]);
    }
  }

  /** Deleting from indexes that hold the same leaves them holding the same. */
  lemma {:induction false} DeleteCongruent(a: State, b: State, id: string)
    requires SameIndex(a, b) && FieldsNested(a) && FieldsNested(b)
    ensures SameIndex(DeleteDoc(a, id), DeleteDoc(b, id))
  {
    DocsAfter(a, id, map[]);
    DocsAfter(b, id, map[]);
    hide DeleteDoc, FieldsNested, TermsOf, ListsOf, LengthsOf, EntriesOf;
    forall f
      ensures TermsOf(DeleteDoc(a, id), f) == TermsOf(DeleteDoc(b, id), f)
      ensures ListsOf(DeleteDoc(a, id), f) == ListsOf(DeleteDoc(b, id), f)
      ensures LengthsOf(DeleteDoc(a, id), f) == LengthsOf(DeleteDoc(b, id), f)
      ensures EntriesOf(DeleteDoc(a, id), f) == EntriesOf(DeleteDoc(b, id), f)
    {
      TermsAfterDelete(a, id, f);
      TermsAfterDelete(b, id, f);
      ListsAfterDelete(a, id, f);
      ListsAfterDelete(b, id, f);
      LengthsAfterDelete(a, id, f);
      LengthsAfterDelete(b, id, f);
      EntriesAfterDelete(a, id, f);
      EntriesAfterDelete(b, id, f);
    }
  }

  lemma {:induction false} RollbackCongruent(a: State, b: State, ws: seq<string>)
    requires SameIndex(a, b) && FieldsNested(a) && FieldsNested(b)
    ensures SameIndex(RolledBack(a, ws), RolledBack(b, ws))
    decreases |ws|
  {
    if ws != [] {
      var n := |ws| - 1;
      DeleteCongruent(a, b, ws[n]);
      NestedAfterDelete(a, ws[n]);
      NestedAfterDelete(b, ws[n]);
      hide SameIndex, DeleteDoc, FieldsNested;
      RollbackCongruent(DeleteDoc(a, ws[n]), DeleteDoc(b, ws[n]), ws[..n]);
    }
  }

  lemma {:induction false} SameIndexTransitive(a: State, b: State, c: State)
    requires SameIndex(a, b) && SameIndex(b, c)
    ensures SameIndex(a, c)
  {
    hide TermsOf, ListsOf, LengthsOf, EntriesOf;
    forall f
      ensures TermsOf(a, f) == TermsOf(c, f) && ListsOf(a, f) == ListsOf(c, f)
      ensures LengthsOf(a, f) == LengthsOf(c, f) && EntriesOf(a, f) == EntriesOf(c, f)
    {
      assert TermsOf(a, f) == TermsOf(b, f) && TermsOf(b, f) == TermsOf(c, f);
    }
  }

  /** Rolling back undoes copying documents under new ids: documents, inverted sets, postings, lengths and sorted
      entries are as they were. */
  lemma {:induction false} RollbackUndoesCopy(dest: State, source: map<string, Doc>, ws: seq<string>)
    requires Exact(dest) && NoRepeats(ws) && forall w :: w in ws ==> w in source && w !in dest.docs
    ensures SameIndex(RolledBack(Copied(dest, source, ws), ws), dest)
  {
    if ws != [] {
      var n := |ws| - 1;
      var prior := Copied(dest, source, ws[..n]);
      CopiedExact(dest, source, ws[..n]);
      CopiedDocs(dest, source, ws[..n]);
      IndexKeepsExact(prior, ws[n], source[ws[n]]);
      var undone := DeleteDoc(IndexDoc(prior, ws[n], source[ws[n]]), ws[n]);
      DeleteKeepsExact(IndexDoc(prior, ws[n], source[ws[n]]), ws[n]);
      DeleteUndoesIndex(prior, ws[n], source[ws[n]]);
      assert FieldsNested(undone) && FieldsNested(prior);
      hide Exact, IndexDoc, DeleteDoc, SameIndex, FieldsNested;
      RollbackCongruent(undone, prior, ws[..n]);
      RollbackUndoesCopy(dest, source, ws[..n]);
      SameIndexTransitive(RolledBack(undone, ws[..n]), RolledBack(prior, ws[..n]), dest);
    }
  }

  // ------------------------------------------------------------------
  // What every step keeps
  // ------------------------------------------------------------------

  /** The destination relative to how it began. */
  ghost predicate DestAsExpected(t: Task, source: map<string, Doc>, dest: State)
    requires forall w :: w in t.written ==> w in source
    requires InRange(t)
  {
    match t.point
    case Undo(left) => RolledBack(t.dest, t.written[..left]) == RolledBack(Copied(dest, source, t.written), t.written)
    case Done =>
      t.dest == if t.info.status.Cancelled? then RolledBack(Copied(dest, source, t.written), t.written)
                else Copied(dest, source, t.written)
    case _ => t.dest == Copied(dest, source, t.written)
  }

  predicate WrittenAsExpected(t: Task, source: map<string, Doc>)
    requires InRange(t)
  {
    && NoRepeats(t.ids)
    && NoRepeats(t.written)
    && (forall w :: w in t.written ==> w in source && w in t.ids[..t.next])
    && t.source.Keys <= source.Keys
    && (forall w :: w in t.source ==> t.source[w] == source[w])
    && (t.point.Index? ==> t.ids[t.next] in source && t.point.doc == source[t.ids[t.next]])
  }

  predicate StoreAsExpected(t: Task)
    requires InRange(t)
  {
    && (!t.info.status.Cancelled? ==> t.undeleted == {})
    && t.store - t.undeleted == if t.point.Index? then t.dest.docs[t.ids[t.next] := t.point.doc] else t.dest.docs
  }

  predicate InfoAsExpected(t: Task) {
    && (match t.point
        case Undo(_) => t.info.status.Cancelled?
        case Recheck => t.info.status.Completed?
        case Done => !t.info.status.Running?
        case _ => t.info.status.Running?)
    && (t.info.status.Completed? ==> t.next == |t.ids|)
    && (if t.info.status.Cancelled? then t.info.created == 0 && t.info.batches == 0
        else t.info.created == |t.written| && t.info.batches <= t.next / BATCH)
    && (t.info.status.Cancelled? || t.closed ==> t.flag)
  }

  ghost predicate Held(t: Task, source: map<string, Doc>, dest: State)
    requires InRange(t)
  {
    && WrittenAsExpected(t, source)
    && DestAsExpected(t, source, dest)
    && StoreAsExpected(t)
    && InfoAsExpected(t)
  }

  lemma {:induction false} PollKeeps(t: Task, source: map<string, Doc>, dest: State)
    requires InRange(t) && t.point.Poll? && Held(t, source, dest)
    ensures Held(PollStep(t), source, dest)
  {
    hide Copied, RolledBack;
    assert t.written[..|t.written|] == t.written;
  }

  lemma {:induction false} RecheckKeeps(t: Task, source: map<string, Doc>, dest: State)
    requires InRange(t) && t.point.Recheck? && Held(t, source, dest)
    ensures Held(RecheckStep(t), source, dest)
  {
    hide Copied, RolledBack;
    assert t.written[..|t.written|] == t.written;
  }

  lemma {:induction false} CopyKeeps(t: Task, ok: bool, source: map<string, Doc>, dest: State)
    requires InRange(t) && t.point.Copy? && Held(t, source, dest)
    ensures Held(CopyStep(t, ok), source, dest)
  {
    hide Copied, RolledBack;
    assert t.store - {} == t.store;
    assert t.ids[..t.next + 1] == t.ids[..t.next] + [t.ids[t.next]];
  }

  lemma {:induction false} IndexKeepsWritten(t: Task, source: map<string, Doc>)
    requires InRange(t) && t.point.Index? && WrittenAsExpected(t, source)
    ensures WrittenAsExpected(IndexStep(t, t.point.doc), source)
  {
    var id := t.ids[t.next];
    hide IndexDoc;
    assert t.ids[..t.next + 1] == t.ids[..t.next] + [id];
    assert id !in t.ids[..t.next] && id !in t.written;
  }

  lemma {:induction false} IndexKeepsStore(t: Task)
    requires InRange(t) && t.point.Index? && StoreAsExpected(t)
    ensures StoreAsExpected(IndexStep(t, t.point.doc))
  {
    DocsAfter(t.dest, t.ids[t.next], t.point.doc);
    hide IndexDoc;
  }

  lemma {:induction false} IndexKeeps(t: Task, source: map<string, Doc>, dest: State)
    requires InRange(t) && t.point.Index? && Held(t, source, dest)
    ensures Held(IndexStep(t, t.point.doc), source, dest)
  {
    IndexKeepsWritten(t, source);
    IndexKeepsStore(t);
    var t' := IndexStep(t, t.point.doc);
    hide IndexDoc, RolledBack, StoreAsExpected;
    assert InfoAsExpected(t');
    hide InfoAsExpected;
    assert t'.written[..|t.written|] == t.written;
    assert t'.dest == Copied(dest, source, t'.written);
  }

  lemma {:induction false} UndoKeepsStore(t: Task, ok: bool)
    requires InRange(t) && t.point.Undo? && StoreAsExpected(t) && InfoAsExpected(t)
    ensures StoreAsExpected(UndoStep(t, t.point.left, ok))
  {
    hide DeleteDoc;
    var left := t.point.left;
    if left > 0 {
      DocsAfter(t.dest, t.written[left - 1], map[]);
    }
  }

  lemma {:induction false} UndoKeepsWritten(t: Task, ok: bool, source: map<string, Doc>)
    requires InRange(t) && t.point.Undo? && WrittenAsExpected(t, source) && InfoAsExpected(t)
    ensures WrittenAsExpected(UndoStep(t, t.point.left, ok), source)
    ensures InfoAsExpected(UndoStep(t, t.point.left, ok))
  {
    hide DeleteDoc;
  }

  lemma {:induction false} RolledBackStep(dest: State, written: seq<string>, left: nat)
    requires left <= |written|
    ensures RolledBack(dest, written[..left])
         == if left == 0 then dest else RolledBack(DeleteDoc(dest, written[left-1]), written[..left-1])
  {
    hide DeleteDoc;
    if left > 0 {
      assert written[..left][..left - 1] == written[..left - 1];
    }
  }

  lemma {:induction false} UndoShape(t: Task, left: nat, ok: bool)
    requires left <= |t.written|
    ensures var t' := UndoStep(t, left, ok);
      && t'.written == t.written && t'.info == t.info
      && (if left == 0 then t'.point == Done && t'.dest == t.dest
          else t'.point == Undo(left - 1) && t'.dest == DeleteDoc(t.dest, t.written[left-1]))
  {
    hide DeleteDoc;
  }

  lemma {:induction false} UndoKeepsDest(t: Task, ok: bool, source: map<string, Doc>, dest: State)
    requires InRange(t) && t.point.Undo? && t.info.status.Cancelled? && InRange(UndoStep(t, t.point.left, ok))
    requires (forall w :: w in t.written ==> w in source) && DestAsExpected(t, source, dest)
    ensures UndoStep(t, t.point.left, ok).written == t.written
    ensures DestAsExpected(UndoStep(t, t.point.left, ok), source, dest)
  {
    hide Copied, RolledBack, DeleteDoc, UndoStep;
    UndoShape(t, t.point.left, ok);
    RolledBackStep(t.dest, t.written, t.point.left);
  }

  lemma {:induction false} UndoInRange(t: Task, ok: bool)
    requires InRange(t) && t.point.Undo?
    ensures InRange(UndoStep(t, t.point.left, ok))
  {
    hide DeleteDoc;
  }

  lemma {:induction false} UndoKeeps(t: Task, ok: bool, source: map<string, Doc>, dest: State)
    requires InRange(t) && t.point.Undo? && Held(t, source, dest)
    ensures Held(UndoStep(t, t.point.left, ok), source, dest)
  {
    UndoKeepsStore(t, ok);
    UndoKeepsWritten(t, ok, source);
    assert t.info.status.Cancelled?;
    UndoInRange(t, ok);
    hide DestAsExpected, StoreAsExpected, InfoAsExpected, UndoStep;
    UndoKeepsDest(t, ok, source, dest);
  }

  lemma {:induction false} OthersKeep(t: Task, e: Event, source: map<string, Doc>, dest: State)
    requires InRange(t) && !e.Tick? && Held(t, source, dest)
    ensures Held(Step(t, e), source, dest)
  {
    hide Copied, RolledBack, TickOnce;
  }

  lemma {:induction false} StepKeeps(t: Task, e: Event, source: map<string, Doc>, dest: State)
    requires InRange(t) && Held(t, source, dest)
    ensures Held(Step(t, e), source, dest)
  {
    if e.Tick? {
      hide PollStep, RecheckStep, CopyStep, IndexStep, UndoStep, Held;
      match t.point
      case Poll => PollKeeps(t, source, dest);
      case Copy => CopyKeeps(t, e.ok, source, dest);
      case Index(_) => IndexKeeps(t, source, dest);
      case Recheck => RecheckKeeps(t, source, dest);
      case Undo(_) => UndoKeeps(t, e.ok, source, dest);
      case Done =>
    } else {
      OthersKeep(t, e, source, dest);
    }
  }

  /** In every run, at every moment. */
  lemma {:induction false} AlwaysHeld(ids: seq<string>, source: map<string, Doc>, dest: State, es: seq<Event>)
    requires NoRepeats(ids)
    ensures Held(Exec(Begin(ids, source, dest), es), source, dest)
  {
    if es == [] {
      assert dest.docs - {} == dest.docs;
    } else {
      var n := |es| - 1;
      AlwaysHeld(ids, source, dest, es[..n]);
      hide Step, Held, InRange;
      StepKeeps(Exec(Begin(ids, source, dest), es[..n]), es[n], source, dest);
    }
  }

  // ------------------------------------------------------------------
  // How a job ends
  // ------------------------------------------------------------------

  /** Cancelled at any point, the job leaves the destination as it began, provided it began exact and shares no id with
      the source; the store too, up to the documents whose deletion failed. */
  lemma {:induction false} CancelRestoresDestination(ids: seq<string>, source: map<string, Doc>, dest: State,
                                                     es: seq<Event>)
    requires Exact(dest) && Listing(ids, source.Keys) && source.Keys !! dest.docs.Keys
    ensures var t := Exec(Begin(ids, source, dest), es);
      t.point.Done? && t.info.status.Cancelled? ==>
        SameIndex(t.dest, dest) && t.store - t.undeleted == dest.docs && t.info.created == 0 && t.info.batches == 0
  {
    var t := Exec(Begin(ids, source, dest), es);
    AlwaysHeld(ids, source, dest, es);
    RollbackUndoesCopy(dest, source, t.written);
  }

  /** A completed job leaves the old documents overlaid with those it wrote, and an exact index if it began exact and
      shares no id with the source. */
  lemma {:induction false} CompletionCopies(ids: seq<string>, source: map<string, Doc>, dest: State, es: seq<Event>)
    requires Listing(ids, source.Keys)
    ensures var t := Exec(Begin(ids, source, dest), es);
      t.point.Done? && t.info.status.Completed? ==>
        && Distinct(t.written) <= source.Keys
        && t.dest.docs == dest.docs + Among(source, t.written) == t.store
        && t.info.created == |t.written|
        && (Exact(dest) && source.Keys !! dest.docs.Keys ==> Exact(t.dest))
  {
    var t := Exec(Begin(ids, source, dest), es);
    AlwaysHeld(ids, source, dest, es);
    hide Exact, Copied, RolledBack;
    if t.point.Done? && t.info.status.Completed? {
      CopiedDocs(dest, source, t.written);
      assert t.store - {} == t.store;
      if Exact(dest) && source.Keys !! dest.docs.Keys {
        CopiedExact(dest, source, t.written);
      }
    }
  }

  /** No store write failed and no source document was lost. */
  predicate Undisturbed(es: seq<Event>) {
    forall k :: 0 <= k < |es| ==> (es[k].Tick? ==> es[k].ok) && !es[k].LoseSource?
  }

  predicate AllWritten(t: Task, ids: seq<string>, source: map<string, Doc>)
    requires InRange(t)
  {
    t.source == source && t.ids == ids && t.written == ids[..t.next]
  }

  lemma {:induction false} UndisturbedStep(t: Task, e: Event, ids: seq<string>, source: map<string, Doc>)
    requires InRange(t) && AllWritten(t, ids, source) && forall id :: id in ids ==> id in source
    requires (e.Tick? ==> e.ok) && !e.LoseSource?
    ensures AllWritten(Step(t, e), ids, source)
  {
    hide IndexDoc, DeleteDoc;
    if e.Tick? && t.point.Index? {
      assert ids[..t.next + 1] == ids[..t.next] + [ids[t.next]];
    }
  }

  lemma {:induction false} UndisturbedWritesAll(ids: seq<string>, source: map<string, Doc>, dest: State, es: seq<Event>)
    requires Listing(ids, source.Keys) && Undisturbed(es)
    ensures AllWritten(Exec(Begin(ids, source, dest), es), ids, source)
  {
    if es != [] {
      var n := |es| - 1;
      UndisturbedWritesAll(ids, source, dest, es[..n]);
      hide Step, InRange, AllWritten;
      UndisturbedStep(Exec(Begin(ids, source, dest), es[..n]), es[n], ids, source);
    }
  }

  /** Without store failures a completed job holds the old documents and every source document. */
  lemma {:induction false} CompletionCopiesAll(ids: seq<string>, source: map<string, Doc>, dest: State, es: seq<Event>)
    requires Listing(ids, source.Keys) && Undisturbed(es)
    ensures var t := Exec(Begin(ids, source, dest), es);
      t.point.Done? && t.info.status.Completed? ==> t.dest.docs == dest.docs + source && t.info.created == |source|
  {
    var t := Exec(Begin(ids, source, dest), es);
    UndisturbedWritesAll(ids, source, dest, es);
    AlwaysHeld(ids, source, dest, es);
    CompletionCopies(ids, source, dest, es);
    assert t.info.status.Completed? ==> t.next == |t.ids|;
    assert t.ids == ids && t.written == ids[..t.next];
    hide *;
    assert ids[..|ids|] == ids;
    CopyOfListed(ids, source);
    ListingSize(ids, source.Keys);
    assert |source.Keys| == |source|;
  }

  lemma {:induction false} CopyOfListed(ids: seq<string>, source: map<string, Doc>)
    requires Listing(ids, source.Keys)
    ensures Among(source, ids) == source
  {
  }

  // ------------------------------------------------------------------
  // The counters a client sees
  // ------------------------------------------------------------------

  /** How many of the first n documents close a batch of BATCH and were written. */
  function BatchesOf(ids: seq<string>, n: nat, written: seq<string>): nat
    requires n <= |ids|
  {
    if n == 0 then 0
    else BatchesOf(ids, n - 1, written) + (if n % BATCH == 0 && ids[n-1] in written then 1 else 0)
  }

  predicate Counted(t: Task)
    requires InRange(t)
  {
    && NoRepeats(t.ids) && (forall w :: w in t.written ==> w in t.ids[..t.next])
    && (!t.info.status.Cancelled? ==> t.info.batches == BatchesOf(t.ids, t.next, t.written))
  }

  lemma {:induction false} SameBatches(ids: seq<string>, n: nat, a: seq<string>, b: seq<string>)
    requires n <= |ids| && forall i :: 0 <= i < n ==> (ids[i] in a <==> ids[i] in b)
    ensures BatchesOf(ids, n, a) == BatchesOf(ids, n, b)
  {
    if n > 0 {
      SameBatches(ids, n - 1, a, b);
    }
  }

  lemma {:induction false} IndexKeepsCounted(t: Task, doc: Doc)
    requires InRange(t) && t.point.Index? && t.info.status.Running? && Counted(t)
    ensures Counted(IndexStep(t, doc))
  {
    hide IndexDoc;
    var id := t.ids[t.next];
    assert t.ids[..t.next + 1] == t.ids[..t.next] + [id] && id !in t.ids[..t.next];
    SameBatches(t.ids, t.next, t.written, t.written + [id]);
  }

  lemma {:induction false} CopyKeepsCounted(t: Task, ok: bool)
    requires InRange(t) && t.point.Copy? && t.info.status.Running? && Counted(t)
    ensures Counted(CopyStep(t, ok))
  {
    assert t.ids[..t.next + 1] == t.ids[..t.next] + [t.ids[t.next]];
    assert t.ids[t.next] !in t.ids[..t.next];
  }

  lemma {:induction false} StepKeepsCounted(t: Task, e: Event)
    requires InRange(t) && Counted(t) && InfoAsExpected(t)
    ensures Counted(Step(t, e))
  {
    hide IndexStep, CopyStep, DeleteDoc, NoRepeats, BatchesOf;
    if e.Tick? && t.point.Index? {
      IndexKeepsCounted(t, t.point.doc);
    } else if e.Tick? && t.point.Copy? {
      CopyKeepsCounted(t, e.ok);
    }
  }

  /** Every document the job has passed is written or counted as a failure. */
  predicate AddsUp(t: Task) { |t.written| + t.info.failures == t.next }

  lemma {:induction false} CopyAddsUp(t: Task, ok: bool)
    requires t.next < |t.ids| && AddsUp(t) && t.ids[t.next] in t.source
    ensures AddsUp(CopyStep(t, ok))
  {
  }

  lemma {:induction false} StepAddsUp(t: Task, e: Event)
    requires InRange(t) && AddsUp(t) && !e.LoseSource?
    requires t.point.Copy? ==> t.ids[t.next] in t.source
    ensures AddsUp(Step(t, e))
  {
    hide CopyStep, IndexDoc, DeleteDoc;
    if e.Tick? && t.point.Copy? {
      CopyAddsUp(t, e.ok);
    }
  }

  lemma {:induction false} SourceKept(t: Task, e: Event)
    requires InRange(t) && !e.LoseSource?
    ensures Step(t, e).source == t.source
  {
    hide TickOnce, IndexDoc, DeleteDoc, InRange;
    if e.Tick? {
      TickKeepsIds(t, e.ok);
    }
  }

  /** In every run the batches reported are the multiples of BATCH passed with a document written; as long as no
      document is taken from the source, those created and those that failed are all the job has passed. */
  lemma {:induction false} ProgressAddsUp(ids: seq<string>, source: map<string, Doc>, dest: State, es: seq<Event>)
    requires Listing(ids, source.Keys)
    ensures var t := Exec(Begin(ids, source, dest), es);
      && (!t.info.status.Cancelled? ==>
            t.info.created == |t.written| && t.info.batches == BatchesOf(t.ids, t.next, t.written))
      && t.ids == ids
    ensures var t := Exec(Begin(ids, source, dest), es);
      (forall e :: e in es ==> !e.LoseSource?) ==> t.source == source && AddsUp(t)
    ensures Counted(Exec(Begin(ids, source, dest), es))
  {
    if es != [] {
      var n := |es| - 1;
      var t := Exec(Begin(ids, source, dest), es[..n]);
      assert es[n] in es && forall e :: e in es[..n] ==> e in es;
      ProgressAddsUp(ids, source, dest, es[..n]);
      AlwaysHeld(ids, source, dest, es[..n]);
      AlwaysHeld(ids, source, dest, es);
      assert InfoAsExpected(t) && InfoAsExpected(Exec(Begin(ids, source, dest), es));
      hide Step, InRange, WrittenAsExpected, DestAsExpected, StoreAsExpected, BatchesOf;
      StepKeepsCounted(t, es[n]);
      IdsKept(t, es[n]);
      if forall e :: e in es ==> !e.LoseSource? {
        StepAddsUp(t, es[n]);
        SourceKept(t, es[n]);
      }
    }
  }

  lemma {:induction false} IdsKept(t: Task, e: Event)
    requires InRange(t)
    ensures Step(t, e).ids == t.ids
  {
    hide TickOnce, IndexDoc, DeleteDoc, InRange;
    if e.Tick? {
      TickKeepsIds(t, e.ok);
    }
  }

  lemma {:induction false} TickKeepsIds(t: Task, ok: bool)
    requires InRange(t)
    ensures TickOnce(t, ok).ids == t.ids && TickOnce(t, ok).source == t.source
  {
    hide CopyStep, IndexStep, UndoStep;
    match t.point
    case Copy => CopyKeepsIds(t, ok);
    case Index(doc) => IndexKeepsIds(t, doc);
    case Undo(left) => UndoKeepsIds(t, left, ok);
    case _ =>
  }

  lemma {:induction false} CopyKeepsIds(t: Task, ok: bool)
    requires t.next < |t.ids|
    ensures CopyStep(t, ok).ids == t.ids && CopyStep(t, ok).source == t.source
  {
  }

  lemma {:induction false} IndexKeepsIds(t: Task, doc: Doc)
    requires t.next < |t.ids|
    ensures IndexStep(t, doc).ids == t.ids && IndexStep(t, doc).source == t.source
  {
    hide IndexDoc;
  }

  lemma {:induction false} UndoKeepsIds(t: Task, left: nat, ok: bool)
    requires left <= |t.written|
    ensures UndoStep(t, left, ok).ids == t.ids && UndoStep(t, left, ok).source == t.source
  {
    hide DeleteDoc;
  }

  // ------------------------------------------------------------------
  // The promise fails exactly when ids are shared
  // ------------------------------------------------------------------

  /** What cancellation leaves: the old documents without every id that had been written. */
  lemma {:induction false} CancelRemovesWritten(ids: seq<string>, source: map<string, Doc>, dest: State, es: seq<Event>)
    requires Listing(ids, source.Keys)
    ensures var t := Exec(Begin(ids, source, dest), es);
      t.point.Done? && t.info.status.Cancelled? ==>
        && t.dest.docs == dest.docs - Distinct(t.written)
        && (t.dest.docs == dest.docs <==> Distinct(t.written) !! dest.docs.Keys)
  {
    var t := Exec(Begin(ids, source, dest), es);
    AlwaysHeld(ids, source, dest, es);
    if t.point.Done? && t.info.status.Cancelled? {
      RolledBackCopyDocs(dest, source, t.written);
    }
  }

  lemma {:induction false} OverlaidAndRemoved(docs: map<string, Doc>, source: map<string, Doc>, ws: seq<string>)
    requires forall w :: w in ws ==> w in source
    ensures var left := docs + Among(source, ws) - Distinct(ws);
      left == docs - Distinct(ws) && (left == docs <==> Distinct(ws) !! docs.Keys)
  {
    var left := docs + Among(source, ws) - Distinct(ws);
    assert forall id :: id in left <==> id in docs && id !in Distinct(ws);
    if forall id :: id in Distinct(ws) ==> id !in docs {
      assert left == docs;
    }
  }

  lemma {:induction false} RolledBackCopyDocs(dest: State, source: map<string, Doc>, ws: seq<string>)
    requires forall w :: w in ws ==> w in source
    ensures var docs := RolledBack(Copied(dest, source, ws), ws).docs;
      docs == dest.docs - Distinct(ws) && (docs == dest.docs <==> Distinct(ws) !! dest.docs.Keys)
  {
    hide Copied, RolledBack;
    CopiedDocs(dest, source, ws);
    RolledBackDocs(Copied(dest, source, ws), ws);
    OverlaidAndRemoved(dest.docs, source, ws);
  }

  function Ticks(n: nat): seq<Event> { if n == 0 then [] else [Tick(true)] + Ticks(n - 1) }

  lemma {:induction false} ExecOne(t: Task, a: Event)
    requires InRange(t)
    ensures Exec(t, [a]) == Step(t, a)
  {
    hide Step;
    assert [a][..0] == [] && Exec(t, []) == t;
  }

  lemma {:induction false} ExecThree(t: Task, a: Event, b: Event, c: Event)
    requires InRange(t)
    ensures Exec(t, [a, b, c]) == Step(Step(Step(t, a), b), c)
  {
    hide Step;
    assert [a, b, c][..2] == [a, b] && [a, b][..1] == [a];
    ExecOne(t, a);
    assert Exec(t, [a, b]) == Step(Exec(t, [a]), b);
  }

  /** Three steps copy a document. */
  function CopySteps(n: nat): seq<Event> {
    if n == 0 then [] else [Tick(true), Tick(true), Tick(true)] + CopySteps(n - 1)
  }

  predicate ReadyAt(t: Task, n: nat, ids: seq<string>, source: map<string, Doc>)
    requires InRange(t)
  {
    t.point.Poll? && t.next == n && !t.closed && t.ids == ids && t.source == source && t.written == ids[..n]
  }

  lemma {:induction false} ThreeTicks(t: Task, ids: seq<string>, source: map<string, Doc>)
    requires InRange(t) && t.next < |ids| && ReadyAt(t, t.next, ids, source) && ids[t.next] in source
    ensures ReadyAt(Step(Step(Step(t, Tick(true)), Tick(true)), Tick(true)), t.next + 1, ids, source)
  {
    hide IndexDoc, DeleteDoc, UndoStep, RecheckStep;
    assert ids[..t.next + 1] == ids[..t.next] + [ids[t.next]];
    var t1 := Step(t, Tick(true));
    assert t1 == t.(point := Copy);
    var t2 := Step(t1, Tick(true));
    assert t2.point.Index? && t2.written == t.written && t2.next == t.next && t2.closed == t.closed;
  }

  lemma {:induction false} CopyStepsWrite(t: Task, n: nat, ids: seq<string>, source: map<string, Doc>)
    requires InRange(t) && t.next + n == |ids| && ReadyAt(t, t.next, ids, source)
    requires forall id :: id in ids ==> id in source
    ensures ReadyAt(Exec(t, CopySteps(n)), |ids|, ids, source)
    decreases n
  {
    hide Step, Exec, InRange, ReadyAt;
    if n == 0 {
      ExecNone(t);
    } else {
      NextReady(t, ids, source);
      var t' := Step(Step(Step(t, Tick(true)), Tick(true)), Tick(true));
      CopyStepsWrite(t', n - 1, ids, source);
      ExecConcat(t, [Tick(true), Tick(true), Tick(true)], CopySteps(n - 1));
      ExecThree(t, Tick(true), Tick(true), Tick(true));
    }
  }

  lemma {:induction false} ExecNone(t: Task)
    requires InRange(t)
    ensures Exec(t, []) == t
  {
  }

  lemma {:induction false} NextReady(t: Task, ids: seq<string>, source: map<string, Doc>)
    requires InRange(t) && t.next < |ids| && ReadyAt(t, t.next, ids, source) && forall id :: id in ids ==> id in source
    ensures var t' := Step(Step(Step(t, Tick(true)), Tick(true)), Tick(true));
      t'.next == t.next + 1 && ReadyAt(t', t'.next, ids, source)
  {
    hide Step, InRange;
    assert ids[t.next] in ids;
    ThreeTicks(t, ids, source);
  }

  /** The steps a job still has before it at most. */
  function Rank(t: Task): nat
    requires InRange(t)
  {
    match t.point
    case Done => 0
    case Undo(left) => left + 1
    case Recheck => |t.written| + 2
    case Poll => |t.written| + 4 + (4 * (|t.ids| - t.next))
    case Copy => |t.written| + 3 + (4 * (|t.ids| - t.next))
    case Index => |t.written| + 2 + (4 * (|t.ids| - t.next))
  }

  /** Every step of a job that is not done brings it nearer its end. */
  lemma {:induction false} TickAdvances(t: Task, ok: bool)
    requires InRange(t) && !t.point.Done?
    ensures Rank(Step(t, Tick(ok))) < Rank(t)
  {
    hide IndexDoc, DeleteDoc;
  }

  /** Once the flag is up, a job that is not done will not complete, and keeps what it has written on record. */
  predicate WillCancel(t: Task, written: seq<string>) {
    t.flag && (t.point.Done? ==> t.info.status.Cancelled?) && written <= t.written
  }

  lemma {:induction false} StillWillCancel(t: Task, e: Event, written: seq<string>)
    requires InRange(t) && WillCancel(t, written) && InfoAsExpected(t)
    ensures WillCancel(Step(t, e), written)
  {
    hide IndexDoc, DeleteDoc;
  }

  /** A job that is not yet done when the flag is raised ends cancelled. */
  lemma {:induction false} FlaggedEndsCancelled(ids: seq<string>, source: map<string, Doc>, dest: State, a: seq<Event>,
                                                b: seq<Event>)
    requires NoRepeats(ids)
    requires var t := Exec(Begin(ids, source, dest), a); t.flag && !t.point.Done?
    ensures WillCancel(Exec(Begin(ids, source, dest), a + b), Exec(Begin(ids, source, dest), a).written)
  {
    var begin := Begin(ids, source, dest);
    hide Step, Exec, Begin;
    if b == [] {
      assert a + b == a;
    } else {
      var n := |b| - 1;
      FlaggedEndsCancelled(ids, source, dest, a, b[..n]);
      assert (a + b)[..|a + b| - 1] == a + b[..n];
      AlwaysHeld(ids, source, dest, a + b[..n]);
      hide WillCancel, WrittenAsExpected, DestAsExpected, StoreAsExpected, InfoAsExpected;
      StillWillCancel(Exec(begin, a + b[..n]), b[n], Exec(begin, a).written);
      ExecLast(begin, a + b);
    }
  }

  lemma {:induction false} ExecLast(t: Task, es: seq<Event>)
    requires InRange(t) && es != []
    ensures Exec(t, es) == Step(Exec(t, es[..|es|-1]), es[|es|-1])
  {
  }

  /** Enough steps end any job. */
  lemma {:induction false} EnoughTicksFinish(t: Task, n: nat)
    requires InRange(t) && Rank(t) <= n
    ensures Exec(t, Ticks(n)).point.Done?
    decreases n
  {
    if n == 0 {
      assert t.point.Done?;
    } else {
      if t.point.Done? {
        DoneStays(t);
      } else {
        TickAdvances(t, true);
      }
      hide Rank, InRange, Step;
      EnoughTicksFinish(Step(t, Tick(true)), n - 1);
      ExecConcat(t, [Tick(true)], Ticks(n - 1));
      ExecOne(t, Tick(true));
    }
  }

  lemma {:induction false} DoneStays(t: Task)
    requires InRange(t) && t.point.Done?
    ensures Step(t, Tick(true)) == t && Rank(t) == 0
  {
  }

  /** The documentation promises that cancellation leaves the documents the destination already had. It does, whenever
      the cancel arrives and whatever the store does, if and only if the destination shares no id with the source. */
  lemma {:induction false} CancelRestoresExactlyWhen(ids: seq<string>, source: map<string, Doc>, dest: State)
    requires Listing(ids, source.Keys)
    ensures source.Keys !! dest.docs.Keys <==>
      forall es ::
        var t := Exec(Begin(ids, source, dest), es);
        t.point.Done? && t.info.status.Cancelled? ==> t.dest.docs == dest.docs
  {
    if source.Keys !! dest.docs.Keys {
      var begin := Begin(ids, source, dest);
      forall es | Exec(begin, es).point.Done? && Exec(begin, es).info.status.Cancelled?
        ensures Exec(begin, es).dest.docs == dest.docs
      {
        CancelRemovesWritten(ids, source, dest, es);
        AlwaysHeld(ids, source, dest, es);
        assert Distinct(Exec(begin, es).written) <= source.Keys;
      }
    } else {
      var es := LateCancel(ids, source, dest);
      CancelRemovesWritten(ids, source, dest, es);
    }
  }

  /** A cancel that arrives when all is written. */
  lemma {:induction false} LateCancel(ids: seq<string>, source: map<string, Doc>, dest: State) returns (es: seq<Event>)
    requires Listing(ids, source.Keys)
    ensures var t := Exec(Begin(ids, source, dest), es);
      t.point.Done? && t.info.status.Cancelled? && Distinct(t.written) >= source.Keys
  {
    var begin := Begin(ids, source, dest);
    var a := CopySteps(|ids|);
    CopyStepsWrite(begin, |ids|, ids, source);
    ExecLast(begin, a + [RaiseFlag]);
    assert (a + [RaiseFlag])[..|a|] == a;
    var t := Exec(begin, a + [RaiseFlag]);
    assert t == Exec(begin, a).(flag := true);
    assert t.written == ids && t.flag && t.point.Poll?;
    hide Exec, Begin, Rank, InRange;
    var b := Ticks(Rank(t));
    EnoughTicksFinish(t, Rank(t));
    ExecConcat(begin, a + [RaiseFlag], b);
    FlaggedEndsCancelled(ids, source, dest, a + [RaiseFlag], b);
    es := a + [RaiseFlag] + b;
    assert forall id :: id in ids ==> id in Exec(begin, es).written;
  }

  /** A job a client has seen completed stays completed, whatever follows, if and only if it is done: the flag is read
      once more after the status is set. */
  lemma {:induction false} CompletedStaysExactlyWhen(ids: seq<string>, source: map<string, Doc>, dest: State,
                                                     a: seq<Event>)
    requires NoRepeats(ids) && Exec(Begin(ids, source, dest), a).info.status.Completed?
    ensures (forall b :: Exec(Begin(ids, source, dest), a + b).info.status.Completed?) <==>
            Exec(Begin(ids, source, dest), a).point.Done?
  {
    var begin, cancel := Begin(ids, source, dest), [RaiseFlag, Tick(true)];
    var t := Exec(begin, a);
    AlwaysHeld(ids, source, dest, a);
    assert t.point.Recheck? || t.point.Done?;
    hide Begin, WrittenAsExpected, DestAsExpected, StoreAsExpected, InfoAsExpected;
    if t.point.Done? {
      forall b ensures Exec(begin, a + b).info.status.Completed? {
        ExecConcat(begin, a, b);
        DoneForGood(t, b);
      }
    } else {
      ExecConcat(begin, a, cancel);
      assert cancel[..1] == [RaiseFlag];
      ExecOne(t, RaiseFlag);
      ExecLast(t, cancel);
      assert Exec(begin, a + cancel).info.status.Cancelled?;
    }
  }

  lemma {:induction false} DoneForGood(t: Task, es: seq<Event>)
    requires InRange(t) && t.point.Done?
    ensures Exec(t, es).point.Done? && Exec(t, es).info == t.info
  {
    if es != [] {
      DoneForGood(t, es[..|es|-1]);
    }
  }

  // ------------------------------------------------------------------
  // The body of the job
  // ------------------------------------------------------------------

  /** rollbackReindex on the engine. */
  method RollbackReindex(engine: Engine.SearchEngine, dest: string, written: seq<string>)
    requires engine.Valid()
    modifies engine
    ensures engine.Valid() && engine.StateOf(dest) == RolledBack(old(engine.StateOf(dest)), written)
    ensures forall i :: i != dest ==> engine.StateOf(i) == old(engine.StateOf(i))
  {
    hide DeleteDoc;
    var i := |written|;
    assert written[..i] == written;
    while i > 0
      invariant 0 <= i <= |written| && engine.Valid()
      invariant RolledBack(engine.StateOf(dest), written[..i]) == RolledBack(old(engine.StateOf(dest)), written)
      invariant forall j :: j != dest ==> engine.StateOf(j) == old(engine.StateOf(j))
    {
      i := i - 1;
      assert written[..i + 1][..i] == written[..i];
      DeleteNothing(written[i]);
      engine.DeleteDoc(dest, written[i]);
    }
  }

  lemma {:induction false} DeleteNothing(id: string)
    ensures DeleteDoc(EMPTY, id) == EMPTY
  {
  }

  /** runReindex, with what each poll of the channel, each store write and the two reads of the flag come back with. */
  method RunReindex(engine: Engine.SearchEngine, srcIdx: string, dest: string, ids: seq<string>, closed: nat -> bool,
                    put: nat -> bool, flagAfterLoop: bool, flagAtEnd: bool)
    returns (status: Status, written: seq<string>)
    requires engine.Valid()
    modifies engine
    ensures engine.Valid()
    ensures status.Cancelled? <==> flagAfterLoop || flagAtEnd || exists i :: 0 <= i < |ids| && closed(i)
    ensures forall w :: w in written ==> w in ids && w in old(engine.StateOf(srcIdx)).docs
    ensures engine.StateOf(dest) ==
      var copied := Copied(old(engine.StateOf(dest)), old(engine.StateOf(srcIdx)).docs, written);
      if status.Cancelled? then RolledBack(copied, written) else copied
    ensures forall j :: j != dest ==> engine.StateOf(j) == old(engine.StateOf(j))
  {
    hide IndexDoc, DeleteDoc;
    written, status := [], Running;
    ghost var source := engine.StateOf(srcIdx).docs;
    for i := 0 to |ids|
      invariant engine.Valid()
      invariant engine.StateOf(srcIdx).docs == source
      invariant forall w :: w in written ==> w in ids && w in source
      invariant engine.StateOf(dest) == Copied(old(engine.StateOf(dest)), source, written)
      invariant forall j :: j != dest ==> engine.StateOf(j) == old(engine.StateOf(j))
      invariant forall j :: 0 <= j < i ==> !closed(j)
    {
      if closed(i) {
        status := Cancelled;
        RollbackReindex(engine, dest, written);
        return;
      }
      var docs := engine.StateOf(srcIdx).docs;
      if ids[i] in docs && put(i) {
        DocsAfter(engine.StateOf(dest), ids[i], docs[ids[i]]);
        engine.IndexDoc(dest, ids[i], docs[ids[i]]);
        assert (written + [ids[i]])[..|written|] == written;
        written := written + [ids[i]];
      }
    }
    if flagAfterLoop {
      status := Cancelled;
      RollbackReindex(engine, dest, written);
      return;
    }
    status := Completed;
    if flagAtEnd {
      status := Cancelled;
      RollbackReindex(engine, dest, written);
    }
  }
}
