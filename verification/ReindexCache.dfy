/** What searches through the result cache see of a cancellable reindex (internal/server/extras.go,
    internal/server/search.go). */
module ReindexCache {
  import opened Common
  import opened Collections
  import opened InvertedIndex
  import IR = IndexRuns
  import opened CacheKey
  import opened SearchCache
  import R = Reindex

  datatype Names = Names(source: string, dest: string)

  /** The job, how many of its two invalidations it has made, and all that has happened to the indices and the cache. */
  datatype World = World(task: R.Task, invalidated: nat, ops: seq<Op>)

  /** A step of the job, a whole search, or a write to an index other than the destination with its invalidation. */
  datatype Event =
    | Job(e: R.Event)
    | Search(indices: seq<string>, body: string)
    | Write(index: string, contents: Option<State>)

  /** The job changes the destination without invalidating it. */
  function JobOps(names: Names, t: R.Task, e: R.Event): seq<Op>
    requires R.InRange(t)
  {
    if e.Tick? && (t.point.Index? || (t.point.Undo? && t.point.left > 0)) then
      [Change(names.dest, Some(R.Step(t, e).dest), false)]
    else []
  }

  /** Between setting the status to completed and looking at the flag again, the job invalidates both indices. */
  function Step(names: Names, w: World, e: Event): (r: World)
    requires R.InRange(w.task)
    ensures R.InRange(r.task)
  {
    match e
    case Job(j) =>
      if j.Tick? && w.task.point.Recheck? && w.invalidated < 2 then
        World(w.task, w.invalidated + 1, w.ops + [Invalidate(if w.invalidated == 0 then names.source else names.dest)])
      else World(R.Step(w.task, j), w.invalidated, w.ops + JobOps(names, w.task, j))
    case Search(indices, body) => w.(ops := w.ops + [Start(0, indices, body), Finish(0)])
    case Write(index, contents) => if index == names.dest then w else w.(ops := w.ops + [Change(index, contents, true)])
  }

  function Exec(names: Names, begin: R.Task, es: seq<Event>): (r: World)
    requires R.InRange(begin)
    ensures R.InRange(r.task)
  {
    if es == [] then World(begin, 0, []) else Step(names, Exec(names, begin, es[..|es|-1]), es[|es|-1])
  }

  predicate ProperSearches(es: seq<Event>) { forall e :: e in es && e.Search? ==> Proper(e.indices) }

  // ------------------------------------------------------------------
  // What every step keeps
  // ------------------------------------------------------------------

  /** Searches are whole, and only the destination changes without being invalidated. */
  predicate Shaped(names: Names, ops: seq<Op>) {
    && ProperOps(ops)
    && (forall n :: 0 <= n < |ops| && ops[n].Start? ==> ops[n].id == 0 && n + 1 < |ops| && ops[n + 1] == Finish(0))
    && (forall n :: 0 <= n < |ops| && ops[n].Change? ==> (ops[n].index == names.dest <==> !ops[n].invalidates))
  }

  /** The destination was invalidated and has not changed since. */
  ghost predicate Settled(names: Names, ops: seq<Op>) {
    exists d :: SettledAt(names, ops, d)
  }

  predicate SettledAt(names: Names, ops: seq<Op>, d: nat) {
    d < |ops| && ops[d] == Invalidate(names.dest) && forall m :: d < m < |ops| && ops[m].Change? ==> ops[m].invalidates
  }

  ghost predicate InvalidatedAsExpected(names: Names, w: World) {
    && (w.task.info.status.Running? ==> w.invalidated == 0)
    && (w.task.point.Done? && w.task.info.status.Completed? ==> w.invalidated == 2)
    && (w.task.info.status.Completed? && w.invalidated == 2 ==> Settled(names, w.ops))
    && w.invalidated <= 2
  }

  lemma {:induction false} StepKeepsShape(names: Names, w: World, e: Event)
    requires R.InRange(w.task) && Shaped(names, w.ops) && (e.Search? ==> Proper(e.indices))
    ensures Shaped(names, Step(names, w, e).ops)
  {
    hide R.Step, Proper;
  }

  lemma {:induction false} SettledStays(names: Names, ops: seq<Op>, more: seq<Op>)
    requires Settled(names, ops) && forall op :: op in more ==> !op.Change? || op.invalidates
    ensures Settled(names, ops + more)
  {
    var d :| SettledAt(names, ops, d);
    assert SettledAt(names, ops + more, d);
  }

  lemma {:induction false} StepKeepsInvalidated(names: Names, w: World, e: Event)
    requires R.InRange(w.task) && R.InfoAsExpected(w.task) && InvalidatedAsExpected(names, w)
    ensures InvalidatedAsExpected(names, Step(names, w, e))
  {
    var w' := Step(names, w, e);
    hide IndexDoc, DeleteDoc, Settled, SettledAt;
    if w'.task.info.status.Completed? && w'.invalidated == 2 {
      if w.invalidated == 2 {
        SettledStays(names, w.ops, w'.ops[|w.ops|..]);
        assert w.ops + w'.ops[|w.ops|..] == w'.ops;
      } else {
        assert w'.ops == w.ops + [Invalidate(names.dest)];
        JustSettled(names, w.ops);
      }
    }
  }

  lemma {:induction false} JustSettled(names: Names, ops: seq<Op>)
    ensures Settled(names, ops + [Invalidate(names.dest)])
  {
    assert SettledAt(names, ops + [Invalidate(names.dest)], |ops|);
  }

  lemma {:induction false} AlwaysHeld(names: Names, ids: seq<string>, source: map<string, Doc>, dest: State,
                                      es: seq<Event>)
    requires NoRepeats(ids) && ProperSearches(es)
    ensures var w := Exec(names, R.Begin(ids, source, dest), es);
      R.Held(w.task, source, dest) && Shaped(names, w.ops) && InvalidatedAsExpected(names, w)
  {
    var begin := R.Begin(ids, source, dest);
    if es == [] {
      R.AlwaysHeld(ids, source, dest, []);
    } else {
      var n := |es| - 1;
      var w := Exec(names, begin, es[..n]);
      assert es[n] in es && forall e :: e in es[..n] ==> e in es;
      AlwaysHeld(names, ids, source, dest, es[..n]);
      if es[n].Job? {
        R.StepKeeps(w.task, es[n].e, source, dest);
      }
      assert R.InfoAsExpected(w.task);
      hide R.Held, R.Step, R.InfoAsExpected, R.Begin, Shaped, InvalidatedAsExpected;
      StepKeepsShape(names, w, es[n]);
      StepKeepsInvalidated(names, w, es[n]);
    }
  }

  // ------------------------------------------------------------------
  // A completed job
  // ------------------------------------------------------------------

  /** What makes a hit stale here: a change to the destination since the answer was stored, and no invalidation
      since. */
  lemma {:induction false} OverlookedHere(names: Names, ops: seq<Op>, o: Origin, indices: seq<string>, m: nat)
    requires Shaped(names, ops) && Proper(indices) && Overlooked(ops, o, indices, m)
    requires o.evaluated < o.stored < |ops| && ops[o.evaluated].Start?
    requires forall n :: o.evaluated < n < o.stored ==> ops[n] != Finish(o.id)
    requires ops[o.evaluated].id == o.id && names.dest != ""
    ensures o.stored < m && ops[m].index == names.dest && !Settled(names, ops)
  {
    hide SortedNames, AllClean;
    assert ops[o.evaluated + 1] == Finish(o.id);
    assert !Invalidates(ops[m], ops[m].index);
  }

  /** Once a job has completed and made its invalidations, every hit is fresh. */
  lemma {:induction false} CompletedIsFresh(cfg: Config, store: Store, capacity: int, names: Names, ids: seq<string>,
                                            source: map<string, Doc>, dest: State, es: seq<Event>)
    requires Local(cfg.eval) && Faithful(cfg.key)
    requires NoRepeats(ids) && ProperSearches(es) && names.dest != ""
    ensures var w := Exec(names, R.Begin(ids, source, dest), es);
      w.task.info.status.Completed? && (w.invalidated == 2 || w.task.point.Done?) ==>
        Fresh(cfg, Run(cfg, store, capacity, w.ops))
  {
    var w := Exec(names, R.Begin(ids, source, dest), es);
    AlwaysHeld(names, ids, source, dest, es);
    var s := Run(cfg, store, capacity, w.ops);
    hide Exec, R.Held, R.Begin, Run, Local, Faithful, Proper, Hit, Invalidates, Overlooked, Settled;
    if w.task.info.status.Completed? && (w.invalidated == 2 || w.task.point.Done?) {
      forall indices, body | Proper(indices) && Hit(cfg, s, indices, body).Some?
        ensures Hit(cfg, s, indices, body) == cfg.eval(s.store, indices, body)
      {
        if Hit(cfg, s, indices, body) != cfg.eval(s.store, indices, body) {
          HitIsAnswerThen(cfg, store, capacity, w.ops, indices, body);
          StaleHitExplained(cfg, store, capacity, w.ops, indices, body);
          var o := OriginOf(cfg, s, indices, body);
          var m :| Overlooked(w.ops, o, indices, m);
          OverlookedHere(names, w.ops, o, indices, m);
        }
      }
    }
  }

  // ------------------------------------------------------------------
  // A cancelled job
  // ------------------------------------------------------------------

  predicate AlikeAt(a: Store, b: Store, i: string) { i in a <==> i in b }

  /** The indices hold the same documents, inverted sets, postings, lengths and sorted entries. */
  ghost predicate AlikeOn(a: Store, b: Store, indices: seq<string>) {
    forall i :: i in indices ==> AlikeAt(a, b, i) && (i in a ==> IR.SameIndex(a[i], b[i]))
  }

  /** A search depends only on what the indices it names hold. */
  ghost predicate Observes(eval: Eval) {
    forall a, b, indices, body :: AlikeOn(a, b, indices) ==> eval(a, indices, body) == eval(b, indices, body)
  }

  /** From the first document indexed to the last one undone. */
  predicate Between(t: R.Task) { t.written != [] && !t.point.Done? && t.point != R.Undo(0) }

  /** Every search starts at an event of its own. */
  ghost predicate SearchAt(names: Names, begin: R.Task, es: seq<Event>, n: nat, p: nat)
    requires R.InRange(begin)
  {
    var ops := Exec(names, begin, es).ops;
    && n < |es| && p < |ops| && ops[p].Start?
    && es[n] == Search(ops[p].indices, ops[p].body) && Exec(names, begin, es[..n]).ops == ops[..p]
  }

  lemma {:induction false} SearchOf(names: Names, begin: R.Task, es: seq<Event>, p: nat) returns (n: nat)
    requires R.InRange(begin)
    requires p < |Exec(names, begin, es).ops| && Exec(names, begin, es).ops[p].Start?
    ensures SearchAt(names, begin, es, n, p)
  {
    hide R.Step, R.InRange;
    var last := |es| - 1;
    var w, w' := Exec(names, begin, es[..last]), Exec(names, begin, es);
    assert w' == Step(names, w, es[last]);
    if p < |w.ops| {
      n := SearchOf(names, begin, es[..last], p);
      assert es[..last][..n] == es[..n];
      assert w'.ops[..p] == w.ops[..p];
    } else {
      n := last;
      assert w'.ops[..p] == w.ops;
    }
  }

  lemma {:induction false} SameIndexSymmetric(a: State, b: State)
    requires IR.SameIndex(a, b)
    ensures IR.SameIndex(b, a)
  {
    hide TermsOf, ListsOf, LengthsOf, EntriesOf;
  }

  /** The destination in the store is the job's. */
  lemma {:induction false} DestIsTasks(cfg: Config, store: Store, capacity: int, names: Names, begin: R.Task,
                                       es: seq<Event>)
    requires R.InRange(begin) && names.dest in store && store[names.dest] == begin.dest
    ensures var w := Exec(names, begin, es);
      var st := Run(cfg, store, capacity, w.ops).store; names.dest in st && st[names.dest] == w.task.dest
  {
    if es != [] {
      var n := |es| - 1;
      DestIsTasks(cfg, store, capacity, names, begin, es[..n]);
      var w, w' := Exec(names, begin, es[..n]), Exec(names, begin, es);
      assert w' == Step(names, w, es[n]);
      hide Exec, Run, R.InRange;
      DestStep(cfg, store, capacity, names, w, es[n]);
    }
  }

  lemma {:induction false} DestStep(cfg: Config, store: Store, capacity: int, names: Names, w: World, e: Event)
    requires R.InRange(w.task)
    requires var st := Run(cfg, store, capacity, w.ops).store; names.dest in st && st[names.dest] == w.task.dest
    ensures var w' := Step(names, w, e);
      var st := Run(cfg, store, capacity, w'.ops).store; names.dest in st && st[names.dest] == w'.task.dest
  {
    hide Run, IndexDoc, DeleteDoc;
    var w' := Step(names, w, e);
    var more := w'.ops[|w.ops|..];
    assert w'.ops == w.ops + more;
    RunMore(cfg, store, capacity, w.ops, more);
    var st := Run(cfg, store, capacity, w.ops).store;
    if e.Search? {
      assert more == [Start(0, e.indices, e.body), Finish(0)];
      assert more[..1] == [Start(0, e.indices, e.body)];
      StoreAfterOne(st, more[0]);
    } else if more != [] {
      assert more == [more[0]];
      StoreAfterOne(st, more[0]);
    }
  }

  lemma {:induction false} RunMore(cfg: Config, store: Store, capacity: int, ops: seq<Op>, more: seq<Op>)
    ensures var s := Run(cfg, store, capacity, ops);
      Run(cfg, store, capacity, ops + more).store == StoreAfter(s.store, more)
  {
    ExecConcat(cfg, Begin(store, capacity), ops, more);
    ExecStore(cfg, Run(cfg, store, capacity, ops), more);
    hide SearchCache.Exec;
  }

  lemma {:induction false} StoreAfterOne(store: Store, op: Op)
    ensures StoreAfter(store, [op]) == if op.Change? then StoreChanged(store, op.index, op.contents) else store
  {
    assert [op][..0] == [];
  }

  lemma {:induction false} DoneStep(names: Names, w: World, e: Event)
    requires R.InRange(w.task) && w.task.point.Done?
    ensures var t := Step(names, w, e).task; t.point.Done? && t.info.status == w.task.info.status
  {
  }

  /** A job that is done stays as it is. */
  lemma {:induction false} DoneStays(names: Names, begin: R.Task, es: seq<Event>, n: nat)
    requires R.InRange(begin) && n <= |es| && Exec(names, begin, es[..n]).task.point.Done?
    ensures var t, t' := Exec(names, begin, es[..n]).task, Exec(names, begin, es).task;
      t'.point.Done? && t'.info.status == t.info.status
  {
    if n == |es| {
      assert es[..n] == es;
    } else {
      var last := |es| - 1;
      assert es[..last][..n] == es[..n];
      DoneStays(names, begin, es[..last], n);
      var w := Exec(names, begin, es[..last]);
      assert Exec(names, begin, es) == Step(names, w, es[last]);
      hide Exec;
      DoneStep(names, w, es[last]);
    }
  }

  /** Outside that stretch of a job that ends cancelled, the destination holds what it held. */
  lemma {:induction false} OutsideDestAsBefore(names: Names, ids: seq<string>, source: map<string, Doc>, dest: State,
                                               es: seq<Event>, n: nat)
    requires Exact(dest) && Listing(ids, source.Keys) && source.Keys !! dest.docs.Keys && ProperSearches(es)
    requires n <= |es| && !Between(Exec(names, R.Begin(ids, source, dest), es[..n]).task)
    requires var t := Exec(names, R.Begin(ids, source, dest), es).task; t.point.Done? && t.info.status.Cancelled?
    ensures IR.SameIndex(Exec(names, R.Begin(ids, source, dest), es[..n]).task.dest, dest)
  {
    var begin := R.Begin(ids, source, dest);
    var t := Exec(names, begin, es[..n]).task;
    assert ProperSearches(es[..n]) by {
      assert forall e :: e in es[..n] ==> e in es;
    }
    AlwaysHeld(names, ids, source, dest, es[..n]);
    if t.point.Done? {
      DoneStays(names, begin, es, n);
    }
    hide Exec, R.Begin, ProperSearches, Shaped, InvalidatedAsExpected;
    HeldOutside(t, ids, source, dest);
  }

  lemma {:induction false} HeldOutside(t: R.Task, ids: seq<string>, source: map<string, Doc>, dest: State)
    requires Exact(dest) && NoRepeats(ids) && source.Keys !! dest.docs.Keys
    requires R.InRange(t) && R.Held(t, source, dest) && !Between(t)
    requires t.point.Done? ==> t.info.status.Cancelled?
    ensures IR.SameIndex(t.dest, dest)
  {
    R.RollbackUndoesCopy(dest, source, t.written);
    hide Exact, R.StoreAsExpected, R.InfoAsExpected, IR.SameIndex;
    assert t.written[..0] == [];
  }

  /** A search over an index other than the destination has the answer it had when the entry was computed. */
  lemma {:induction false} OthersUnchanged(cfg: Config, store: Store, capacity: int, names: Names, ops: seq<Op>,
                                           o: Origin, indices: seq<string>, i: string)
    requires Shaped(names, ops) && Proper(indices) && i in indices && i != names.dest
    requires o.evaluated < o.stored < |ops| && ops[o.evaluated].Start? && ops[o.evaluated].id == o.id
    requires forall n :: o.evaluated < n < o.stored ==> ops[n] != Finish(o.id)
    requires forall n, i :: o.stored <= n < |ops| && i in indices ==> !Invalidates(ops[n], i)
    ensures SameOn(Run(cfg, store, capacity, ops[..o.evaluated]).store, Run(cfg, store, capacity, ops).store, [i])
  {
    hide Run, SortedNames, AllClean;
    assert ops[o.evaluated + 1] == Finish(o.id);
    forall m | o.evaluated <= m < |ops| && ops[m].Change? ensures ops[m].index !in [i] {
      assert m > o.stored && !Invalidates(ops[m], i);
    }
    UnchangedOn(cfg, store, capacity, ops, o.evaluated, [i]);
  }

  /** What was written, and is not undone, is in the destination. */
  predicate WrittenIsThere(t: R.Task)
    requires R.InRange(t)
  {
    !t.point.Done? ==>
      forall i :: 0 <= i < (if t.point.Undo? then t.point.left else |t.written|) ==> t.written[i] in t.dest.docs
  }

  lemma {:induction false} IndexKeepsThere(t: R.Task)
    requires R.InRange(t) && t.point.Index? && WrittenIsThere(t)
    ensures WrittenIsThere(R.IndexStep(t, t.point.doc))
  {
    hide IndexDoc;
    IR.DocsAfter(t.dest, t.ids[t.next], t.point.doc);
  }

  lemma {:induction false} UndoKeepsThere(t: R.Task, ok: bool)
    requires R.InRange(t) && t.point.Undo? && NoRepeats(t.written) && WrittenIsThere(t)
    ensures WrittenIsThere(R.UndoStep(t, t.point.left, ok))
  {
    hide DeleteDoc;
    if t.point.left > 0 {
      IR.DocsAfter(t.dest, t.written[t.point.left - 1], map[]);
    }
  }

  lemma {:induction false} StepKeepsThere(t: R.Task, e: R.Event)
    requires R.InRange(t) && NoRepeats(t.written) && WrittenIsThere(t)
    ensures WrittenIsThere(R.Step(t, e))
  {
    hide R.IndexStep, R.UndoStep, NoRepeats;
    if e.Tick? && t.point.Index? {
      IndexKeepsThere(t);
    } else if e.Tick? && t.point.Undo? {
      UndoKeepsThere(t, e.ok);
    }
  }

  lemma {:induction false} AlwaysThere(names: Names, ids: seq<string>, source: map<string, Doc>, dest: State,
                                       es: seq<Event>)
    requires NoRepeats(ids) && ProperSearches(es)
    ensures WrittenIsThere(Exec(names, R.Begin(ids, source, dest), es).task)
  {
    var begin := R.Begin(ids, source, dest);
    if es != [] {
      var n := |es| - 1;
      assert ProperSearches(es[..n]) by {
        assert forall e :: e in es[..n] ==> e in es;
      }
      AlwaysThere(names, ids, source, dest, es[..n]);
      AlwaysHeld(names, ids, source, dest, es[..n]);
      var w := Exec(names, begin, es[..n]);
      assert NoRepeats(w.task.written);
      assert Exec(names, begin, es) == Step(names, w, es[n]);
      hide Exec, R.Held, R.Begin, R.Step, WrittenIsThere, Shaped, InvalidatedAsExpected;
      if es[n].Job? {
        StepKeepsThere(w.task, es[n].e);
      }
    }
  }

  /** Within that stretch the destination holds a document it did not hold. */
  lemma {:induction false} BetweenHoldsMore(names: Names, ids: seq<string>, source: map<string, Doc>, dest: State,
                                            es: seq<Event>)
    requires NoRepeats(ids) && ProperSearches(es) && source.Keys !! dest.docs.Keys
    requires Between(Exec(names, R.Begin(ids, source, dest), es).task)
    ensures Exec(names, R.Begin(ids, source, dest), es).task.dest.docs != dest.docs
  {
    AlwaysHeld(names, ids, source, dest, es);
    AlwaysThere(names, ids, source, dest, es);
    var t := Exec(names, R.Begin(ids, source, dest), es).task;
    hide Exec, R.Begin, Shaped, InvalidatedAsExpected, R.DestAsExpected, R.StoreAsExpected, R.InfoAsExpected;
    assert t.written[0] in source && t.written[0] in t.dest.docs;
  }

  /** The search computed its answer in this step and stored it in the next; none of its indices was invalidated
      since. */
  predicate ComputedAt(ops: seq<Op>, o: Origin, indices: seq<string>) {
    && o.evaluated < o.stored < |ops| && ops[o.evaluated].Start? && ops[o.evaluated].id == o.id
    && (forall n :: o.evaluated < n < o.stored ==> ops[n] != Finish(o.id))
    && (forall n, i :: o.stored <= n < |ops| && i in indices ==> !Invalidates(ops[n], i))
  }

  /** The indices of a search hold what they held when its entry was computed, if the destination is not among them or
      the job was not in that stretch. */
  lemma {:induction false} AlikeOutside(cfg: Config, store: Store, capacity: int, names: Names, ids: seq<string>,
                                        source: map<string, Doc>, dest: State, es: seq<Event>, o: Origin,
                                        indices: seq<string>, n: nat)
    requires Exact(dest) && Listing(ids, source.Keys) && source.Keys !! dest.docs.Keys && ProperSearches(es)
    requires Proper(indices) && names.dest in store && store[names.dest] == dest
    requires var w := Exec(names, R.Begin(ids, source, dest), es);
      && w.task.point.Done? && w.task.info.status.Cancelled?
      && ComputedAt(w.ops, o, indices) && n <= |es|
      && Exec(names, R.Begin(ids, source, dest), es[..n]).ops == w.ops[..o.evaluated]
    requires !(names.dest in indices && Between(Exec(names, R.Begin(ids, source, dest), es[..n]).task))
    ensures AlikeOn(Run(cfg, store, capacity, Exec(names, R.Begin(ids, source, dest), es[..n]).ops).store,
                    Run(cfg, store, capacity, Exec(names, R.Begin(ids, source, dest), es).ops).store, indices)
  {
    var begin := R.Begin(ids, source, dest);
    var w, v := Exec(names, begin, es), Exec(names, begin, es[..n]);
    var now, before := Run(cfg, store, capacity, w.ops), Run(cfg, store, capacity, v.ops);
    AlwaysHeld(names, ids, source, dest, es);
    hide Exec, Run, R.Held, R.Begin, Exact, Proper, Invalidates, InvalidatedAsExpected, Between, IR.SameIndex, Shaped;
    forall i | i in indices
      ensures AlikeAt(before.store, now.store, i)
      ensures i in before.store ==> IR.SameIndex(before.store[i], now.store[i])
    {
      if i == names.dest {
        DestIsTasks(cfg, store, capacity, names, begin, es);
        DestIsTasks(cfg, store, capacity, names, begin, es[..n]);
        DestAlikeOutside(names, ids, source, dest, es, n);
      } else {
        OthersUnchanged(cfg, store, capacity, names, w.ops, o, indices, i);
        SameIsAlike(before.store, now.store, i);
      }
    }
  }

  lemma {:induction false} DestAlikeOutside(names: Names, ids: seq<string>, source: map<string, Doc>, dest: State,
                                            es: seq<Event>, n: nat)
    requires Exact(dest) && Listing(ids, source.Keys) && source.Keys !! dest.docs.Keys && ProperSearches(es)
    requires n <= |es| && !Between(Exec(names, R.Begin(ids, source, dest), es[..n]).task)
    requires var t := Exec(names, R.Begin(ids, source, dest), es).task; t.point.Done? && t.info.status.Cancelled?
    ensures IR.SameIndex(Exec(names, R.Begin(ids, source, dest), es[..n]).task.dest,
                         Exec(names, R.Begin(ids, source, dest), es).task.dest)
  {
    var v, w := Exec(names, R.Begin(ids, source, dest), es[..n]).task, Exec(names, R.Begin(ids, source, dest), es).task;
    hide Exec, R.Begin, Exact, IR.SameIndex, ProperSearches;
    OutsideDestAsBefore(names, ids, source, dest, es, n);
    CancelledDestAsBefore(names, ids, source, dest, es);
    SameIndexSymmetric(w.dest, dest);
    R.SameIndexTransitive(v.dest, dest, w.dest);
  }

  lemma {:induction false} CancelledDestAsBefore(names: Names, ids: seq<string>, source: map<string, Doc>, dest: State,
                                                 es: seq<Event>)
    requires Exact(dest) && Listing(ids, source.Keys) && source.Keys !! dest.docs.Keys && ProperSearches(es)
    requires var t := Exec(names, R.Begin(ids, source, dest), es).task; t.point.Done? && t.info.status.Cancelled?
    ensures IR.SameIndex(Exec(names, R.Begin(ids, source, dest), es).task.dest, dest)
  {
    assert es[..|es|] == es;
    NotBetween(Exec(names, R.Begin(ids, source, dest), es).task);
    hide Exec, R.Begin, Exact, IR.SameIndex, ProperSearches, Between;
    OutsideDestAsBefore(names, ids, source, dest, es, |es|);
  }

  /** Within that stretch it does not, if the destination is among them. */
  lemma {:induction false} UnlikeWithin(cfg: Config, store: Store, capacity: int, names: Names, ids: seq<string>,
                                        source: map<string, Doc>, dest: State, es: seq<Event>, n: nat)
    requires Exact(dest) && Listing(ids, source.Keys) && source.Keys !! dest.docs.Keys && ProperSearches(es)
    requires names.dest in store && store[names.dest] == dest && n <= |es|
    requires var t := Exec(names, R.Begin(ids, source, dest), es).task; t.point.Done? && t.info.status.Cancelled?
    requires Between(Exec(names, R.Begin(ids, source, dest), es[..n]).task)
    ensures var before := Run(cfg, store, capacity, Exec(names, R.Begin(ids, source, dest), es[..n]).ops).store;
      var now := Run(cfg, store, capacity, Exec(names, R.Begin(ids, source, dest), es).ops).store;
      names.dest in before && names.dest in now && before[names.dest].docs != now[names.dest].docs
  {
    var begin := R.Begin(ids, source, dest);
    assert ProperSearches(es[..n]) by {
      assert forall e :: e in es[..n] ==> e in es;
    }
    hide Exec, Run, R.Begin, Exact, ProperSearches, Between;
    DestIsTasks(cfg, store, capacity, names, begin, es);
    DestIsTasks(cfg, store, capacity, names, begin, es[..n]);
    CancelledDestAsBefore(names, ids, source, dest, es);
    BetweenHoldsMore(names, ids, source, dest, es[..n]);
  }

  /** Gives answer as long as the index holds these documents. */
  function Recall(index: string, docs: map<string, Doc>, answer: Option<string>): Eval {
    (st: Store, indices: seq<string>, body: string) =>
      if index in indices && index in st && st[index].docs == docs then answer else None
  }

  lemma {:induction false} RecallObserves(index: string, docs: map<string, Doc>, answer: Option<string>)
    ensures Observes(Recall(index, docs, answer))
  {
    var eval := Recall(index, docs, answer);
    forall a, b, indices, body | AlikeOn(a, b, indices) ensures eval(a, indices, body) == eval(b, indices, body) {
      if index in indices {
        assert AlikeAt(a, b, index);
      }
    }
  }

  /** Every way of searching by what the indices hold that gave the answer then gives it now. */
  ghost predicate StillTheAnswer(before: Store, now: Store, indices: seq<string>, body: string,
                                 answer: Option<string>) {
    forall eval: Eval :: Observes(eval) && eval(before, indices, body) == answer ==> eval(now, indices, body) == answer
  }

  /** A cancelled job invalidates nothing once it undoes. Afterwards the indices of a hit hold what they held when its
      answer was computed if and only if the destination is not among them or the search did not start between the first
      document indexed and the last one undone; and exactly then the hit is fresh for every way of searching. */
  lemma {:induction false} CancelledHitFreshExactlyWhen(cfg: Config, store: Store, capacity: int, names: Names,
      ids: seq<string>, source: map<string, Doc>, dest: State, es: seq<Event>, indices: seq<string>, body: string)
    returns (n: nat)
    requires Faithful(cfg.key) && ProperSearches(es) && Proper(indices)
    requires Exact(dest) && Listing(ids, source.Keys) && source.Keys !! dest.docs.Keys
    requires names.dest in store && store[names.dest] == dest
    requires var w := Exec(names, R.Begin(ids, source, dest), es);
      && w.task.point.Done? && w.task.info.status.Cancelled?
      && Hit(cfg, Run(cfg, store, capacity, w.ops), indices, body).Some?
    ensures n < |es| && es[n] == Search(indices, body)
    ensures var w, v := Exec(names, R.Begin(ids, source, dest), es), Exec(names, R.Begin(ids, source, dest), es[..n]);
      var now, before := Run(cfg, store, capacity, w.ops), Run(cfg, store, capacity, v.ops);
      var hit, disturbed := Hit(cfg, now, indices, body), names.dest in indices && Between(v.task);
      && hit == cfg.eval(before.store, indices, body)
      && (AlikeOn(before.store, now.store, indices) <==> !disturbed)
      && (StillTheAnswer(before.store, now.store, indices, body, hit) <==> !disturbed)
  {
    var begin := R.Begin(ids, source, dest);
    var w := Exec(names, begin, es);
    AlwaysHeld(names, ids, source, dest, es);
    HitIsAnswerThen(cfg, store, capacity, w.ops, indices, body);
    var now := Run(cfg, store, capacity, w.ops);
    var o := OriginOf(cfg, now, indices, body);
    n := SearchOf(names, begin, es, o.evaluated);
    var v := Exec(names, begin, es[..n]);
    var before, hit := Run(cfg, store, capacity, v.ops), Hit(cfg, now, indices, body);
    assert ComputedAt(w.ops, o, indices);
    hide Exec, Run, R.Held, R.Begin, Exact, Faithful, Proper, Hit, ComputedAt, InvalidatedAsExpected, Between;
    if names.dest in indices && Between(v.task) {
      UnlikeWithin(cfg, store, capacity, names, ids, source, dest, es, n);
      SomeoneCanTell(before.store, now.store, indices, body, names.dest, hit);
    } else {
      AlikeOutside(cfg, store, capacity, names, ids, source, dest, es, o, indices, n);
      hide AlikeOn;
    }
  }

  lemma {:induction false} SomeoneCanTell(before: Store, now: Store, indices: seq<string>, body: string, index: string,
                                          answer: Option<string>)
    requires index in indices && index in before && index in now && before[index].docs != now[index].docs
    requires answer.Some?
    ensures !AlikeOn(before, now, indices) && !StillTheAnswer(before, now, indices, body, answer)
  {
    hide TermsOf, ListsOf, LengthsOf, EntriesOf;
    var eval := Recall(index, before[index].docs, answer);
    RecallObserves(index, before[index].docs, answer);
    hide Observes;
    assert eval(before, indices, body) == answer && eval(now, indices, body) == None;
  }

  lemma {:induction false} NotBetween(t: R.Task)
    requires t.point.Done?
    ensures !Between(t)
  {
  }

  lemma {:induction false} SameIsAlike(a: Store, b: Store, i: string)
    requires SameOn(a, b, [i])
    ensures AlikeAt(a, b, i) && (i in a ==> IR.SameIndex(a[i], b[i]))
  {
    assert i in [i];
  }

  const TICK: Event := Job(R.Tick(true))

  /** A search between the first document and a cancel that arrives right after it. */
  function EarlyCancel(dest: string): seq<Event> {
    [TICK, TICK, TICK, Search([dest], ""), Job(R.RaiseFlag), Job(R.CloseChannel), TICK, TICK, TICK]
  }

  function Thrice(names: Names, w: World, a: Event, b: Event, c: Event): (r: World)
    requires R.InRange(w.task)
    ensures R.InRange(r.task)
  {
    Step(names, Step(names, Step(names, w, a), b), c)
  }

  lemma {:induction false} ExecThree(names: Names, begin: R.Task, es: seq<Event>, a: Event, b: Event, c: Event)
    requires R.InRange(begin)
    ensures Exec(names, begin, es + [a, b, c]) == Thrice(names, Exec(names, begin, es), a, b, c)
  {
    var all, n := es + [a, b, c], |es|;
    hide Step;
    assert all[..n + 2] == es + [a, b] && (es + [a, b])[..n + 1] == es + [a] && (es + [a])[..n] == es;
    assert Exec(names, begin, es + [a]) == Step(names, Exec(names, begin, es), a);
    assert Exec(names, begin, es + [a, b]) == Step(names, Exec(names, begin, es + [a]), b);
    assert Exec(names, begin, all) == Step(names, Exec(names, begin, es + [a, b]), c);
  }

  /** Three steps copy the first document. */
  lemma {:induction false} FirstCopied(names: Names, ids: seq<string>, source: map<string, Doc>, dest: State)
    requires ids != [] && ids[0] in source
    ensures var w := Thrice(names, World(R.Begin(ids, source, dest), 0, []), TICK, TICK, TICK);
      var copied := IndexDoc(dest, ids[0], source[ids[0]]);
      && w.task.point == R.Poll && w.task.next == 1 && w.task.ids == ids && w.task.written == [ids[0]]
      && w.task.dest == copied && w.ops == [Change(names.dest, Some(copied), false)]
  {
    hide IndexDoc, DeleteDoc;
  }

  /** With both signals given, three steps undo it. */
  lemma {:induction false} FirstUndone(names: Names, w: World, id: string)
    requires R.InRange(w.task) && w.task.point == R.Poll && w.task.flag && w.task.closed && w.task.written == [id]
    ensures var w' := Thrice(names, w, TICK, TICK, TICK);
      && w'.task.point.Done? && w'.task.info.status.Cancelled?
      && w'.ops == w.ops + [Change(names.dest, Some(DeleteDoc(w.task.dest, id)), false)]
  {
    hide IndexDoc, DeleteDoc;
  }

  lemma {:induction false} EarlyCancelOps(names: Names, ids: seq<string>, source: map<string, Doc>, dest: State)
    requires ids != [] && ids[0] in source
    ensures var w := Exec(names, R.Begin(ids, source, dest), EarlyCancel(names.dest));
      var copied := IndexDoc(dest, ids[0], source[ids[0]]);
      && w.task.point.Done? && w.task.info.status.Cancelled?
      && w.ops == [Change(names.dest, Some(copied), false)] + [Start(0, [names.dest], ""), Finish(0)]
                  + [Change(names.dest, Some(DeleteDoc(copied, ids[0])), false)]
  {
    var begin, copying := R.Begin(ids, source, dest), [TICK, TICK, TICK];
    var search := copying + [Search([names.dest], ""), Job(R.RaiseFlag), Job(R.CloseChannel)];
    assert EarlyCancel(names.dest) == search + [TICK, TICK, TICK] && copying == [] + [TICK, TICK, TICK];
    hide EarlyCancel, R.Begin, Thrice, IndexDoc, DeleteDoc;
    ExecThree(names, begin, [], TICK, TICK, TICK);
    ExecThree(names, begin, copying, Search([names.dest], ""), Job(R.RaiseFlag), Job(R.CloseChannel));
    ExecThree(names, begin, search, TICK, TICK, TICK);
    assert Exec(names, begin, []) == World(begin, 0, []);
    hide Exec, R.InRange;
    FirstCopied(names, ids, source, dest);
    Signals(names, Exec(names, begin, copying));
    FirstUndone(names, Exec(names, begin, search), ids[0]);
  }

  /** A search, then the cancel. */
  lemma {:induction false} Signals(names: Names, w: World)
    requires R.InRange(w.task)
    ensures var w' := Thrice(names, w, Search([names.dest], ""), Job(R.RaiseFlag), Job(R.CloseChannel));
      w'.task == w.task.(flag := true, closed := true) && w'.ops == w.ops + [Start(0, [names.dest], ""), Finish(0)]
  {
  }

  lemma {:induction false} EarlyCancelCache(cfg: Config, store: Store, capacity: int, dest: string, copied: State,
                                            undone: State)
    requires Cacheable(cfg, cfg.eval(store[dest := copied], [dest], ""))
    ensures var search := [Start(0, [dest], ""), Finish(0)];
      var ops := [Change(dest, Some(copied), false)] + search + [Change(dest, Some(undone), false)];
      var now := Run(cfg, store, capacity, ops);
      && now.store == store[dest := undone]
      && Hit(cfg, now, [dest], "") == cfg.eval(store[dest := copied], [dest], "")
  {
    hide SearchCache.Exec;
    var copy, search, undo := Change(dest, Some(copied), false), [Start(0, [dest], ""), Finish(0)],
                              Change(dest, Some(undone), false);
    var s0 := Begin(store, capacity);
    ExecConcat(cfg, s0, [copy] + search, [undo]);
    ExecConcat(cfg, s0, [copy], search);
    ExecOne(cfg, s0, copy);
    var s1 := Apply(cfg, s0, copy);
    assert search == [Start(0, [dest], "")] + [] + [Finish(0)];
    OvertakingLeaves(cfg, s1, 0, [dest], "", []);
    var s2 := Overtaking(cfg, s1, 0, [dest], "", []);
    ExecOne(cfg, s2, undo);
    assert s1.store == store[dest := copied] && StoreAfter(s1.store, []) == s1.store;
    assert store[dest := copied][dest := undone] == store[dest := undone];
  }

  /** Such hits there are: whenever the source has a document, a job can end cancelled with a stale hit left behind. */
  lemma {:induction false} CancelCanLeaveStaleHit(key: KeyOf, store: Store, capacity: int, names: Names,
                                                  ids: seq<string>, source: map<string, Doc>, dest: State)
    requires ids != [] && ids[0] in source
    ensures var copied := IndexDoc(dest, ids[0], source[ids[0]]);
      var cfg := Config(Recall(names.dest, copied.docs, Some("")), key, 0);
      var w := Exec(names, R.Begin(ids, source, dest), EarlyCancel(names.dest));
      var now := Run(cfg, store, capacity, w.ops);
      && Observes(cfg.eval) && w.task.point.Done? && w.task.info.status.Cancelled?
      && Hit(cfg, now, [names.dest], "").Some?
      && Hit(cfg, now, [names.dest], "") != cfg.eval(now.store, [names.dest], "")
  {
    hide IndexDoc, DeleteDoc, Observes, Exec, Run, EarlyCancel, R.Begin;
    var copied := IndexDoc(dest, ids[0], source[ids[0]]);
    var cfg := Config(Recall(names.dest, copied.docs, Some("")), key, 0);
    RecallObserves(names.dest, copied.docs, Some(""));
    EarlyCancelOps(names, ids, source, dest);
    IR.DocsAfter(dest, ids[0], source[ids[0]]);
    IR.DocsAfter(copied, ids[0], map[]);
    EarlyCancelCache(cfg, store, capacity, names.dest, copied, DeleteDoc(copied, ids[0]));
  }
}
