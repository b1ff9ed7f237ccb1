/** Clients that write to the destination while a reindex job runs (internal/server/extras.go). */
module ReindexClients {
  import opened Common
  import opened Collections
  import opened InvertedIndex
  import IR = IndexRuns
  import R = Reindex

  /** A step of the job, or a client's write to the destination. */
  datatype Event = Job(e: R.Event) | Put(id: string, doc: Doc) | Remove(id: string)

  /** The clock counts the steps, and undone says in which step an id was rolled back; both only keep record. */
  datatype World = World(task: R.Task, undone: map<string, nat>, clock: nat)

  function Step(w: World, e: Event): (r: World)
    requires R.InRange(w.task)
    ensures R.InRange(r.task)
  {
    var t := w.task;
    match e
    case Job(j) =>
      var undoes := j.Tick? && t.point.Undo? && t.point.left > 0;
      var undone := if undoes then w.undone[t.written[t.point.left - 1] := w.clock] else w.undone;
      World(R.Step(t, j), undone, w.clock + 1)
    case Put(id, doc) =>
      World(t.(dest := IndexDoc(t.dest, id, doc), store := t.store[id := doc]), w.undone, w.clock + 1)
    case Remove(id) => World(t.(dest := DeleteDoc(t.dest, id), store := t.store - {id}), w.undone, w.clock + 1)
  }

  function Exec(begin: R.Task, es: seq<Event>): (r: World)
    requires R.InRange(begin)
    ensures R.InRange(r.task)
  {
    if es == [] then World(begin, map[], 0) else Step(Exec(begin, es[..|es|-1]), es[|es|-1])
  }

  function At(docs: map<string, Doc>, id: string): Option<Doc> { if id in docs then Some(docs[id]) else None }

  predicate Writes(e: Event, id: string) { !e.Job? && e.id == id }

  /** The document as the clients alone leave it. */
  function ClientValue(start: Option<Doc>, es: seq<Event>, id: string): Option<Doc> {
    if es == [] then start
    else
      var e := es[|es|-1];
      if !Writes(e, id) then ClientValue(start, es[..|es|-1], id) else if e.Put? then Some(e.doc) else None
  }

  // ------------------------------------------------------------------
  // What every step keeps
  // ------------------------------------------------------------------

  predicate Undone(t: R.Task, i: nat) {
    (t.point.Undo? && t.point.left <= i) || (t.point.Done? && t.info.status.Cancelled?)
  }

  predicate Listed(t: R.Task)
    requires R.InRange(t)
  {
    NoRepeats(t.ids) && NoRepeats(t.written) && forall id :: id in t.written ==> id in t.ids[..t.next]
  }

  predicate StatusFits(t: R.Task) {
    match t.point
    case Undo(_) => t.info.status.Cancelled?
    case Recheck => t.info.status.Completed?
    case Done => !t.info.status.Running?
    case _ => t.info.status.Running?
  }

  predicate Marked(t: R.Task, undone: map<string, nat>) {
    && (forall id :: id in undone ==> id in t.written)
    && (forall i :: 0 <= i < |t.written| ==> (t.written[i] in undone <==> Undone(t, i)))
  }

  predicate Shaped(w: World)
    requires R.InRange(w.task)
  {
    && Listed(w.task) && StatusFits(w.task) && Marked(w.task, w.undone)
    && (forall id :: id in w.undone ==> w.undone[id] < w.clock)
  }

  /** An id the job has not written is as the clients leave it; one that was rolled back, as they leave it since. */
  ghost predicate AsClientsLeaveIt(w: World, dest: State, es: seq<Event>) {
    && w.clock == |es|
    && (forall id :: id in w.undone ==>
          w.undone[id] < |es| && At(w.task.dest.docs, id) == ClientValue(None, es[w.undone[id] + 1..], id))
    && (forall id :: id !in w.task.written ==>
          At(w.task.dest.docs, id) == ClientValue(At(dest.docs, id), es, id))
  }

  lemma {:induction false} IndexKeepsListed(t: R.Task, doc: Doc)
    requires R.InRange(t) && t.point.Index? && Listed(t)
    ensures Listed(R.IndexStep(t, doc))
  {
    OneMoreListed(t);
    hide IndexDoc, NoRepeats;
  }

  lemma {:induction false} CopyKeepsListed(t: R.Task, ok: bool)
    requires R.InRange(t) && t.point.Copy? && Listed(t)
    ensures Listed(R.CopyStep(t, ok))
  {
    OneMoreListed(t);
    hide NoRepeats;
  }

  lemma {:induction false} TickKeepsListed(t: R.Task, ok: bool)
    requires R.InRange(t) && Listed(t)
    ensures Listed(R.TickOnce(t, ok))
  {
    hide R.IndexStep, R.CopyStep, NoRepeats, DeleteDoc;
    if t.point.Index? {
      IndexKeepsListed(t, t.point.doc);
    } else if t.point.Copy? {
      CopyKeepsListed(t, ok);
    }
  }

  lemma {:induction false} OneMoreListed(t: R.Task)
    requires R.InRange(t) && Listed(t) && t.next < |t.ids|
    ensures t.ids[..t.next + 1] == t.ids[..t.next] + [t.ids[t.next]] && NoRepeats(t.written + [t.ids[t.next]])
  {
    assert t.ids[t.next] !in t.ids[..t.next];
  }

  lemma {:induction false} TickKeepsStatus(t: R.Task, ok: bool)
    requires R.InRange(t) && StatusFits(t)
    ensures StatusFits(R.TickOnce(t, ok))
  {
    hide IndexDoc, DeleteDoc;
  }

  lemma {:induction false} IndexKeepsMarked(t: R.Task, doc: Doc, undone: map<string, nat>)
    requires R.InRange(t) && t.point.Index? && Listed(t) && StatusFits(t) && Marked(t, undone)
    ensures Marked(R.IndexStep(t, doc), undone)
  {
    hide IndexDoc;
    assert t.ids[t.next] !in t.ids[..t.next];
  }

  lemma {:induction false} UndoKeepsMarked(t: R.Task, ok: bool, undone: map<string, nat>, clock: nat)
    requires R.InRange(t) && t.point.Undo? && NoRepeats(t.written) && StatusFits(t) && Marked(t, undone)
    ensures Marked(R.UndoStep(t, t.point.left, ok),
                   if t.point.left > 0 then undone[t.written[t.point.left - 1] := clock] else undone)
  {
    hide DeleteDoc;
  }

  lemma {:induction false} OthersKeepMarked(t: R.Task, ok: bool, undone: map<string, nat>)
    requires R.InRange(t) && !t.point.Index? && !t.point.Undo? && StatusFits(t) && Marked(t, undone)
    ensures Marked(R.TickOnce(t, ok), undone)
  {
  }

  lemma {:induction false} StepKeepsShape(w: World, e: Event)
    requires R.InRange(w.task) && Shaped(w)
    ensures Shaped(Step(w, e))
  {
    var t := w.task;
    hide R.TickOnce, Listed, StatusFits, Marked, NoRepeats, IndexDoc, DeleteDoc, R.IndexStep, R.UndoStep;
    if e.Job? && e.e.Tick? {
      TickKeepsListed(t, e.e.ok);
      TickKeepsStatus(t, e.e.ok);
      TickKeepsMarked(w, e.e.ok);
    } else {
      SameShape(t, Step(w, e).task, w.undone);
    }
  }

  lemma {:induction false} TickKeepsMarked(w: World, ok: bool)
    requires R.InRange(w.task) && Shaped(w)
    ensures Marked(R.TickOnce(w.task, ok), Step(w, Job(R.Tick(ok))).undone)
  {
    var t := w.task;
    assert NoRepeats(t.written);
    hide Listed, StatusFits, Marked, NoRepeats, R.IndexStep, R.UndoStep, R.PollStep, R.CopyStep, R.RecheckStep;
    if t.point.Index? {
      IndexKeepsMarked(t, t.point.doc, w.undone);
    } else if t.point.Undo? {
      UndoKeepsMarked(t, ok, w.undone, w.clock);
    } else {
      OthersKeepMarked(t, ok, w.undone);
    }
  }

  lemma {:induction false} SameShape(t: R.Task, t': R.Task, undone: map<string, nat>)
    requires R.InRange(t) && R.InRange(t') && Listed(t) && StatusFits(t) && Marked(t, undone)
    requires t'.ids == t.ids && t'.next == t.next && t'.point == t.point && t'.written == t.written && t'.info == t.info
    ensures Listed(t') && StatusFits(t') && Marked(t', undone)
  {
  }

  /** A step writes at most the current document and undoes at most one. */
  lemma {:induction false} RecordOfStep(w: World, e: Event)
    requires R.InRange(w.task)
    ensures var t, w' := w.task, Step(w, e);
      && w'.clock == w.clock + 1
      && w'.task.written == (if e.Job? && e.e.Tick? && t.point.Index? then t.written + [t.ids[t.next]] else t.written)
      && w'.undone == (if e.Job? && e.e.Tick? && t.point.Undo? && t.point.left > 0
                       then w.undone[t.written[t.point.left - 1] := w.clock] else w.undone)
  {
    hide IndexDoc, DeleteDoc;
  }

  lemma {:induction false} DocsOfTick(t: R.Task, ok: bool)
    requires R.InRange(t)
    ensures R.TickOnce(t, ok).dest.docs ==
      if t.point.Index? then t.dest.docs[t.ids[t.next] := t.point.doc]
      else if t.point.Undo? && t.point.left > 0 then t.dest.docs - {t.written[t.point.left - 1]}
      else t.dest.docs
  {
    hide IndexDoc, DeleteDoc;
    if t.point.Index? {
      IR.DocsAfter(t.dest, t.ids[t.next], t.point.doc);
    } else if t.point.Undo? && t.point.left > 0 {
      IR.DocsAfter(t.dest, t.written[t.point.left - 1], map[]);
    }
  }

  /** What a step does to the documents of the destination. */
  lemma {:induction false} DocsOfStep(w: World, e: Event, id: string)
    requires R.InRange(w.task)
    ensures var t, t' := w.task, Step(w, e).task;
      At(t'.dest.docs, id) ==
        if e.Put? && e.id == id then Some(e.doc)
        else if e.Remove? && e.id == id then None
        else if e.Job? && e.e.Tick? && t.point.Index? && t.ids[t.next] == id then Some(t.point.doc)
        else if e.Job? && e.e.Tick? && t.point.Undo? && t.point.left > 0 && t.written[t.point.left - 1] == id then None
        else At(t.dest.docs, id)
  {
    hide IndexDoc, DeleteDoc, R.TickOnce;
    var t := w.task;
    match e
    case Put(id', doc) => IR.DocsAfter(t.dest, id', doc);
    case Remove(id') => IR.DocsAfter(t.dest, id', map[]);
    case Job(j) =>
      if j.Tick? {
        DocsOfTick(t, j.ok);
      }
  }

  lemma {:induction false} ClientsSnoc(start: Option<Doc>, es: seq<Event>, e: Event, id: string)
    ensures ClientValue(start, es + [e], id)
         == if !Writes(e, id) then ClientValue(start, es, id) else if e.Put? then Some(e.doc) else None
  {
    assert (es + [e])[..|es|] == es;
  }

  /** What is undone is neither written again nor undone again. */
  lemma {:induction false} UndoneForGood(t: R.Task, undone: map<string, nat>, id: string)
    requires R.InRange(t) && Marked(t, undone) && id in undone
    ensures !t.point.Index? && (t.point.Undo? && t.point.left > 0 ==> t.written[t.point.left - 1] != id)
  {
    var i :| 0 <= i < |t.written| && t.written[i] == id;
    assert Undone(t, i);
    if t.point.Undo? && t.point.left > 0 {
      assert !Undone(t, t.point.left - 1);
    }
  }

  lemma {:induction false} StaysUndone(w: World, e: Event, dest: State, es: seq<Event>, id: string)
    requires R.InRange(w.task) && Shaped(w) && AsClientsLeaveIt(w, dest, es) && id in w.undone
    ensures var u := w.undone[id];
      u < |es| && At(Step(w, e).task.dest.docs, id) == ClientValue(None, (es + [e])[u + 1..], id)
  {
    var u, all := w.undone[id], es + [e];
    hide Step, At, ClientValue, R.InRange, Listed, StatusFits, Marked;
    UndoneForGood(w.task, w.undone, id);
    DocsOfStep(w, e, id);
    assert all[u + 1..] == es[u + 1..] + [e];
    ClientsSnoc(None, es[u + 1..], e, id);
  }

  lemma {:induction false} UndoneStays(w: World, e: Event, dest: State, es: seq<Event>, id: string)
    requires R.InRange(w.task) && Shaped(w) && AsClientsLeaveIt(w, dest, es) && id in Step(w, e).undone
    ensures var w' := Step(w, e);
      && w'.undone[id] < |es + [e]|
      && At(w'.task.dest.docs, id) == ClientValue(None, (es + [e])[w'.undone[id] + 1..], id)
  {
    hide Step, At, ClientValue, R.InRange, Listed, StatusFits, Marked;
    RecordOfStep(w, e);
    if id in w.undone {
      UndoneForGood(w.task, w.undone, id);
      StaysUndone(w, e, dest, es, id);
    } else {
      DocsOfStep(w, e, id);
      assert (es + [e])[w.clock + 1..] == [];
      ClientsNone(id);
    }
  }

  lemma {:induction false} ClientsNone(id: string)
    ensures ClientValue(None, [], id) == None
  {
  }

  lemma {:induction false} UnwrittenStays(w: World, e: Event, dest: State, es: seq<Event>, id: string)
    requires R.InRange(w.task) && Shaped(w) && AsClientsLeaveIt(w, dest, es) && id !in Step(w, e).task.written
    ensures At(Step(w, e).task.dest.docs, id) == ClientValue(At(dest.docs, id), es + [e], id)
  {
    DocsOfStep(w, e, id);
    RecordOfStep(w, e);
    hide Step, At, ClientValue, R.InRange;
    ClientsSnoc(At(dest.docs, id), es, e, id);
  }

  lemma {:induction false} StepKeepsClients(w: World, e: Event, dest: State, es: seq<Event>)
    requires R.InRange(w.task) && Shaped(w) && AsClientsLeaveIt(w, dest, es)
    ensures AsClientsLeaveIt(Step(w, e), dest, es + [e])
  {
    hide Step, Shaped, At, ClientValue, R.InRange;
    var w', all := Step(w, e), es + [e];
    RecordOfStep(w, e);
    forall id | id in w'.undone
      ensures w'.undone[id] < |all|
      ensures At(w'.task.dest.docs, id) == ClientValue(None, all[w'.undone[id] + 1..], id)
    {
      UndoneStays(w, e, dest, es, id);
    }
    forall id | id !in w'.task.written
      ensures At(w'.task.dest.docs, id) == ClientValue(At(dest.docs, id), all, id)
    {
      UnwrittenStays(w, e, dest, es, id);
    }
  }

  lemma {:induction false} BeginAsClientsLeaveIt(ids: seq<string>, source: map<string, Doc>, dest: State)
    requires NoRepeats(ids)
    ensures var w := Exec(R.Begin(ids, source, dest), []); Shaped(w) && AsClientsLeaveIt(w, dest, [])
  {
  }

  lemma {:induction false} ExecLast(begin: R.Task, es: seq<Event>)
    requires R.InRange(begin) && es != []
    ensures Exec(begin, es) == Step(Exec(begin, es[..|es|-1]), es[|es|-1])
  {
    hide Step, R.InRange;
  }

  lemma {:induction false} AlwaysAsClientsLeaveIt(ids: seq<string>, source: map<string, Doc>, dest: State,
                                                  es: seq<Event>)
    requires NoRepeats(ids)
    ensures var w := Exec(R.Begin(ids, source, dest), es); Shaped(w) && AsClientsLeaveIt(w, dest, es)
  {
    hide Exec, Step, R.Begin, R.InRange, Shaped, AsClientsLeaveIt, NoRepeats;
    if es == [] {
      BeginAsClientsLeaveIt(ids, source, dest);
    } else {
      var n := |es| - 1;
      AlwaysAsClientsLeaveIt(ids, source, dest, es[..n]);
      var w := Exec(R.Begin(ids, source, dest), es[..n]);
      assert es[..n] + [es[n]] == es;
      ExecLast(R.Begin(ids, source, dest), es);
      StepKeepsShape(w, es[n]);
      StepKeepsClients(w, es[n], dest, es[..n]);
    }
  }

  // ------------------------------------------------------------------
  // What a cancelled job leaves
  // ------------------------------------------------------------------

  /** Whatever clients write while the job runs and is rolled back: an id the job had not written is left as if there
      had been no job; an id it had written is left as the clients make it after its rollback, from nothing. */
  lemma {:induction false} CancelLeaves(ids: seq<string>, source: map<string, Doc>, dest: State, es: seq<Event>,
                                        id: string)
    requires NoRepeats(ids)
    ensures var w := Exec(R.Begin(ids, source, dest), es);
      w.task.point.Done? && w.task.info.status.Cancelled? ==>
        && (id in w.task.written <==> id in w.undone)
        && (id in w.undone ==> w.undone[id] < |es|)
        && At(w.task.dest.docs, id) ==
           if id in w.undone then ClientValue(None, es[w.undone[id] + 1..], id)
           else ClientValue(At(dest.docs, id), es, id)
  {
    AlwaysAsClientsLeaveIt(ids, source, dest, es);
    hide Exec, ClientValue, At;
  }

  lemma {:induction false} UnwrittenValue(start: Option<Doc>, es: seq<Event>, id: string)
    requires forall e :: e in es ==> !Writes(e, id)
    ensures ClientValue(start, es, id) == start
  {
    if es != [] {
      assert es[|es|-1] in es;
      UnwrittenValue(start, es[..|es|-1], id);
    }
  }

  lemma {:induction false} LastWrittenValue(start: Option<Doc>, es: seq<Event>, n: nat)
    requires n < |es| && es[n].Put? && forall m :: n < m < |es| ==> !Writes(es[m], es[n].id)
    ensures ClientValue(start, es, es[n].id) == Some(es[n].doc)
  {
    if n < |es| - 1 {
      LastWrittenValue(start, es[..|es|-1], n);
    }
  }

  /** The last document a client wrote under an id survives a cancelled job if and only if the job had not written the
      id or had rolled it back before. */
  lemma {:induction false} WriteSurvivesCancelExactlyWhen(ids: seq<string>, source: map<string, Doc>, dest: State,
                                                          es: seq<Event>, n: nat)
    requires NoRepeats(ids)
    requires n < |es| && es[n].Put? && forall m :: n < m < |es| ==> !Writes(es[m], es[n].id)
    requires var t := Exec(R.Begin(ids, source, dest), es).task; t.point.Done? && t.info.status.Cancelled?
    ensures var w, id := Exec(R.Begin(ids, source, dest), es), es[n].id;
      && (id in w.task.written ==> id in w.undone)
      && (At(w.task.dest.docs, id) == Some(es[n].doc) <==> id in w.task.written ==> w.undone[id] < n)
  {
    var w, id := Exec(R.Begin(ids, source, dest), es), es[n].id;
    CancelLeaves(ids, source, dest, es, id);
    hide Exec, At, ClientValue;
    if id in w.undone {
      var since := es[w.undone[id] + 1..];
      if w.undone[id] < n {
        assert since[n - w.undone[id] - 1] == es[n];
        LastWrittenValue(None, since, n - w.undone[id] - 1);
      } else {
        UnwrittenValue(None, since, id);
      }
    } else {
      LastWrittenValue(At(dest.docs, id), es, n);
    }
  }
}
