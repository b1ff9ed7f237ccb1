/** Searches and writes through the result cache (internal/server/search.go, internal/server/optimistic.go,
    internal/server/server.go, internal/server/index_doc.go, internal/server/ilm_executor.go). */
module SearchCache {
  import opened Common
  import opened InvertedIndex
  import opened LruCache
  import opened CacheKey

  /** The contents of the indices. */
  type Store = map<string, State>

  /** A search over the store: the response, or None for an error, which is not cached. */
  type Eval = (Store, seq<string>, string) -> Option<string>

  type KeyOf = (seq<string>, string) -> string

  datatype Config = Config(eval: Eval, key: KeyOf, maxSize: nat)

  /** A search that missed and has computed its response, but not stored it; at is the step it did so. */
  datatype Pending = Pending(indices: seq<string>, body: string, response: Option<string>, at: nat)

  /** Which search computed an entry, in which step, and in which step it stored it. */
  datatype Origin = Origin(id: nat, indices: seq<string>, body: string, evaluated: nat, stored: nat)

  /** The clock counts the steps; it and the origins only keep record. */
  datatype System = System(store: Store, cache: Cached, inflight: map<nat, Pending>, origin: map<string, Origin>,
                           clock: nat)

  /** A search is two critical sections, Start and Finish. A change to an index, or its removal, invalidates the index
      in the same step or not at all; an invalidation can also be a step of its own. */
  datatype Op =
    | Start(id: nat, indices: seq<string>, body: string)
    | Finish(id: nat)
    | Change(index: string, contents: Option<State>, invalidates: bool)
    | Invalidate(index: string)
    | InvalidateEverything

  // ------------------------------------------------------------------
  // Steps
  // ------------------------------------------------------------------

  function KeyIn(cfg: Config, indices: seq<string>, body: string): string { cfg.key(indices, body) }

  /** The answer of a search that finds its key. A search over nothing does not ask the cache. */
  function Hit(cfg: Config, s: System, indices: seq<string>, body: string): Option<string> {
    var k := KeyIn(cfg, indices, body);
    if indices != [] && k in s.cache.data then Some(s.cache.data[k].value) else None
  }

  predicate Cacheable(cfg: Config, r: Option<string>) { r.Some? && |r.value| <= cfg.maxSize }

  function Started(cfg: Config, s: System, id: nat, indices: seq<string>, body: string): System {
    if indices == [] || id in s.inflight then s
    else
      var k := KeyIn(cfg, indices, body);
      var looked := s.(cache := Get(s.cache, k));
      if k in s.cache.data then looked
      else looked.(inflight := s.inflight[id := Pending(indices, body, cfg.eval(s.store, indices, body), s.clock)])
  }

  function Finished(cfg: Config, s: System, id: nat): System {
    if id !in s.inflight then s
    else
      var p := s.inflight[id];
      var rest := s.(inflight := s.inflight - {id});
      if !Cacheable(cfg, p.response) then rest
      else
        var k := KeyIn(cfg, p.indices, p.body);
        rest.(cache := Set(s.cache, k, Entry(p.response.value, p.indices)),
              origin := s.origin[k := Origin(id, p.indices, p.body, p.at, s.clock)])
  }

  /** Nothing is invalidated for an empty name. */
  function Invalidated(c: Cached, index: string): Cached { if index == "" then c else InvalidateIndex(c, index) }

  function StoreChanged(store: Store, index: string, contents: Option<State>): Store {
    if contents.Some? then store[index := contents.value] else store - {index}
  }

  function Changed(s: System, index: string, contents: Option<State>, invalidates: bool): System {
    s.(store := StoreChanged(s.store, index, contents),
       cache := if invalidates then Invalidated(s.cache, index) else s.cache)
  }

  function Apply(cfg: Config, s: System, op: Op): System {
    var next :=
      match op
      case Start(id, indices, body) => Started(cfg, s, id, indices, body)
      case Finish(id) => Finished(cfg, s, id)
      case Change(index, contents, invalidates) => Changed(s, index, contents, invalidates)
      case Invalidate(index) => s.(cache := Invalidated(s.cache, index))
      case InvalidateEverything => s.(cache := InvalidateAll(s.cache));
    next.(clock := s.clock + 1)
  }

  function Begin(store: Store, capacity: int): System { System(store, New(capacity), map[], map[], 0) }

  function Exec(cfg: Config, s: System, ops: seq<Op>): System {
    if ops == [] then s else Apply(cfg, Exec(cfg, s, ops[..|ops|-1]), ops[|ops|-1])
  }

  function Run(cfg: Config, store: Store, capacity: int, ops: seq<Op>): System {
    Exec(cfg, Begin(store, capacity), ops)
  }

  // ------------------------------------------------------------------
  // What is assumed of searches and keys
  // ------------------------------------------------------------------

  predicate SameOn(a: Store, b: Store, indices: seq<string>) {
    forall i :: i in indices ==> (i in a <==> i in b) && (i in a ==> a[i] == b[i])
  }

  /** A search depends only on the indices it names. */
  ghost predicate Local(eval: Eval) {
    forall a, b, indices, body :: SameOn(a, b, indices) ==> eval(a, indices, body) == eval(b, indices, body)
  }

  /** Lists of names as callers pass them: sorted, without separators, none empty. */
  predicate Proper(indices: seq<string>) { SortedNames(indices) && AllClean(indices) && "" !in indices }

  /** Keys tell searches over such lists apart; see KeysAreFaithful. */
  ghost predicate Faithful(key: KeyOf) {
    forall a, x, b, y :: Proper(a) && Proper(b) && a != [] && b != [] && key(a, x) == key(b, y) ==> a == b && x == y
  }

  /** The keys of MakeKey do, for a hash without collisions. */
  lemma {:induction false} KeysAreFaithful(hash: string -> string)
    requires forall s, t :: hash(s) == hash(t) ==> s == t
    ensures Faithful((indices, body) => KeyFor(indices, body, hash))
  {
    hide KeyFor, SortedNames, AllClean;
    forall a, x, b, y |
      Proper(a) && Proper(b) && a != [] && b != [] && KeyFor(a, x, hash) == KeyFor(b, y, hash)
      ensures a == b && x == y
    {
      SameKeyExactlyWhen(a, x, b, y, hash);
      SortedUnique(a, b);
    }
  }

  /** Requests name proper lists. */
  predicate ProperOps(ops: seq<Op>) { forall op :: op in ops && op.Start? ==> Proper(op.indices) }

  // ------------------------------------------------------------------
  // Where entries come from
  // ------------------------------------------------------------------

  predicate Invalidates(op: Op, index: string) {
    match op
    case Change(i, _, invalidates) => invalidates && i == index && index != ""
    case Invalidate(i) => i == index && index != ""
    case InvalidateEverything => true
    case _ => false
  }

  /** The response was computed in step at of the run, and the search has not finished since. */
  ghost predicate PendingTraced(cfg: Config, store: Store, capacity: int, ops: seq<Op>, id: nat, p: Pending) {
    && p.at < |ops| && p.indices != []
    && ops[p.at] == Start(id, p.indices, p.body)
    && p.response == cfg.eval(Run(cfg, store, capacity, ops[..p.at]).store, p.indices, p.body)
    && forall n :: p.at < n < |ops| ==> ops[n] != Finish(id)
  }

  /** The entry is what the search of its origin computed; none of its indices was invalidated since it was stored. */
  ghost predicate EntryTraced(cfg: Config, store: Store, capacity: int, ops: seq<Op>, k: string, e: Entry, o: Origin) {
    && o.evaluated < o.stored < |ops| && o.indices != []
    && e.indexes == o.indices && k == KeyIn(cfg, o.indices, o.body)
    && ops[o.evaluated] == Start(o.id, o.indices, o.body) && ops[o.stored] == Finish(o.id)
    && Some(e.value) == cfg.eval(Run(cfg, store, capacity, ops[..o.evaluated]).store, o.indices, o.body)
    && |e.value| <= cfg.maxSize
    && (forall n :: o.evaluated < n < o.stored ==> ops[n] != Finish(o.id))
    && (forall n, i :: o.stored <= n < |ops| && i in o.indices ==> !Invalidates(ops[n], i))
  }

  ghost predicate AllPendingTraced(cfg: Config, store: Store, capacity: int, ops: seq<Op>,
                                   inflight: map<nat, Pending>) {
    forall id :: id in inflight ==> PendingTraced(cfg, store, capacity, ops, id, inflight[id])
  }

  ghost predicate AllEntriesTraced(cfg: Config, store: Store, capacity: int, ops: seq<Op>, data: map<string, Entry>,
                                   origin: map<string, Origin>) {
    forall k :: k in data ==> k in origin && EntryTraced(cfg, store, capacity, ops, k, data[k], origin[k])
  }

  ghost predicate Traced(cfg: Config, store: Store, capacity: int, ops: seq<Op>, s: System) {
    && Valid(s.cache) && s.clock == |ops|
    && AllPendingTraced(cfg, store, capacity, ops, s.inflight)
    && AllEntriesTraced(cfg, store, capacity, ops, s.cache.data, s.origin)
  }

  /** A step that finishes none of these searches. */
  lemma {:induction false} PendingStay(cfg: Config, store: Store, capacity: int, ops: seq<Op>, op: Op,
                                       before: map<nat, Pending>, after: map<nat, Pending>)
    requires AllPendingTraced(cfg, store, capacity, ops, before)
    requires forall id :: id in after ==> id in before && after[id] == before[id] && op != Finish(id)
    ensures AllPendingTraced(cfg, store, capacity, ops + [op], after)
  {
    hide Run;
    forall id | id in after ensures PendingTraced(cfg, store, capacity, ops + [op], id, after[id]) {
      var p := before[id];
      assert PendingTraced(cfg, store, capacity, ops, id, p);
      assert (ops + [op])[..p.at] == ops[..p.at];
    }
  }

  /** A step that invalidates none of these entries. */
  lemma {:induction false} EntriesStay(cfg: Config, store: Store, capacity: int, ops: seq<Op>, op: Op,
                                       before: map<string, Entry>, after: map<string, Entry>,
                                       origin: map<string, Origin>)
    requires AllEntriesTraced(cfg, store, capacity, ops, before, origin)
    requires forall k :: k in after ==> k in before && after[k] == before[k]
    requires forall k, i :: k in after && i in after[k].indexes ==> !Invalidates(op, i)
    ensures AllEntriesTraced(cfg, store, capacity, ops + [op], after, origin)
  {
    hide EntryTraced, Invalidates;
    forall k | k in after ensures k in origin && EntryTraced(cfg, store, capacity, ops + [op], k, after[k], origin[k]) {
      EntryStays(cfg, store, capacity, ops, op, k, before[k], origin[k]);
    }
  }

  lemma {:induction false} EntryStays(cfg: Config, store: Store, capacity: int, ops: seq<Op>, op: Op, k: string,
                                      e: Entry, o: Origin)
    requires EntryTraced(cfg, store, capacity, ops, k, e, o) && forall i :: i in e.indexes ==> !Invalidates(op, i)
    ensures EntryTraced(cfg, store, capacity, ops + [op], k, e, o)
  {
    hide Run, Invalidates;
    assert (ops + [op])[..o.evaluated] == ops[..o.evaluated];
  }

  lemma {:induction false} EntryArrives(cfg: Config, store: Store, capacity: int, ops: seq<Op>, id: nat, p: Pending)
    requires PendingTraced(cfg, store, capacity, ops, id, p) && Cacheable(cfg, p.response)
    ensures EntryTraced(cfg, store, capacity, ops + [Finish(id)], KeyIn(cfg, p.indices, p.body),
                        Entry(p.response.value, p.indices), Origin(id, p.indices, p.body, p.at, |ops|))
  {
    hide Run;
    assert (ops + [Finish(id)])[..p.at] == ops[..p.at];
  }

  /** Storing keeps other entries as they are, or drops them. */
  lemma {:induction false} SetData(c: Cached, key: string, e: Entry)
    ensures var d := Set(c, key, e).data;
      key in d && d[key] == e && forall k :: k in d && k != key ==> k in c.data && d[k] == c.data[k]
  {
  }

  lemma {:induction false} PendingAfterStart(cfg: Config, store: Store, capacity: int, ops: seq<Op>, s: System, op: Op)
    requires s == Run(cfg, store, capacity, ops) && Traced(cfg, store, capacity, ops, s) && op.Start?
    ensures AllPendingTraced(cfg, store, capacity, ops + [op], Apply(cfg, s, op).inflight)
  {
    var after := Apply(cfg, s, op).inflight;
    hide Get, Valid, AllEntriesTraced, Run;
    if op.indices == [] || op.id in s.inflight || KeyIn(cfg, op.indices, op.body) in s.cache.data {
      PendingStay(cfg, store, capacity, ops, op, s.inflight, after);
    } else {
      PendingStay(cfg, store, capacity, ops, op, s.inflight, s.inflight);
      assert (ops + [op])[..|ops|] == ops;
    }
  }

  lemma {:induction false} StartKeepsTraced(cfg: Config, store: Store, capacity: int, ops: seq<Op>, s: System, op: Op)
    requires s == Run(cfg, store, capacity, ops) && Traced(cfg, store, capacity, ops, s) && op.Start?
    ensures Traced(cfg, store, capacity, ops + [op], Apply(cfg, s, op))
  {
    PendingAfterStart(cfg, store, capacity, ops, s, op);
    var s' := Apply(cfg, s, op);
    GetKeepsValid(s.cache, KeyIn(cfg, op.indices, op.body));
    assert s'.cache.data == s.cache.data;
    hide Get, Valid, AllPendingTraced, AllEntriesTraced, Run;
    EntriesStay(cfg, store, capacity, ops, op, s.cache.data, s'.cache.data, s.origin);
  }

  lemma {:induction false} FinishKeepsTraced(cfg: Config, store: Store, capacity: int, ops: seq<Op>, s: System, op: Op)
    requires Traced(cfg, store, capacity, ops, s) && op.Finish?
    ensures Traced(cfg, store, capacity, ops + [op], Apply(cfg, s, op))
  {
    var s' := Apply(cfg, s, op);
    hide Set, Valid, Run, PendingTraced, EntryTraced, AllPendingTraced;
    PendingStay(cfg, store, capacity, ops, op, s.inflight, s'.inflight);
    if op.id in s.inflight && Cacheable(cfg, s.inflight[op.id].response) {
      StoredIsTraced(cfg, store, capacity, ops, s, op.id);
    } else {
      hide AllEntriesTraced;
      EntriesStay(cfg, store, capacity, ops, op, s.cache.data, s.cache.data, s.origin);
    }
  }

  lemma {:induction false} StoredIsTraced(cfg: Config, store: Store, capacity: int, ops: seq<Op>, s: System, id: nat)
    requires Traced(cfg, store, capacity, ops, s) && id in s.inflight && Cacheable(cfg, s.inflight[id].response)
    ensures var s' := Finished(cfg, s, id);
      Valid(s'.cache) && AllEntriesTraced(cfg, store, capacity, ops + [Finish(id)], s'.cache.data, s'.origin)
  {
    var p, s' := s.inflight[id], Finished(cfg, s, id);
    var k, e := KeyIn(cfg, p.indices, p.body), Entry(p.response.value, p.indices);
    SetKeepsValid(s.cache, k, e);
    SetData(s.cache, k, e);
    EntryArrives(cfg, store, capacity, ops, id, p);
    var others := s'.cache.data - {k};
    hide Set, Valid, Run, PendingTraced, EntryTraced, AllEntriesTraced, AllPendingTraced;
    EntriesStay(cfg, store, capacity, ops, Finish(id), s.cache.data, others, s.origin);
    AddTraced(cfg, store, capacity, ops + [Finish(id)], others, s'.cache.data, s.origin, k,
              Origin(id, p.indices, p.body, p.at, s.clock));
  }

  lemma {:induction false} AddTraced(cfg: Config, store: Store, capacity: int, ops: seq<Op>, others: map<string, Entry>,
                                     data: map<string, Entry>, origin: map<string, Origin>, k: string, o: Origin)
    requires AllEntriesTraced(cfg, store, capacity, ops, others, origin)
    requires k in data && EntryTraced(cfg, store, capacity, ops, k, data[k], o) && others == data - {k}
    ensures AllEntriesTraced(cfg, store, capacity, ops, data, origin[k := o])
  {
    hide EntryTraced;
    forall x | x in data ensures EntryTraced(cfg, store, capacity, ops, x, data[x], origin[k := o][x]) {
      assert x == k || x in others;
    }
  }

  /** An invalidation leaves no entry that names the index, and the others as they were. */
  lemma {:induction false} InvalidatedData(c: Cached, index: string)
    requires Valid(c)
    ensures Valid(Invalidated(c, index))
    ensures var d := Invalidated(c, index).data;
      forall k :: k in d ==> k in c.data && d[k] == c.data[k] && (index != "" ==> index !in d[k].indexes)
  {
    InvalidateKeepsValid(c, index);
    NoTaggedEntryLeft(c, index);
  }

  lemma {:induction false} OthersKeepTraced(cfg: Config, store: Store, capacity: int, ops: seq<Op>, s: System, op: Op)
    requires Traced(cfg, store, capacity, ops, s) && !op.Start? && !op.Finish?
    ensures Traced(cfg, store, capacity, ops + [op], Apply(cfg, s, op))
  {
    var s' := Apply(cfg, s, op);
    if op.Change? || op.Invalidate? {
      InvalidatedData(s.cache, op.index);
    }
    hide Invalidated, Run, StoreChanged, AllPendingTraced, AllEntriesTraced;
    PendingStay(cfg, store, capacity, ops, op, s.inflight, s'.inflight);
    EntriesStay(cfg, store, capacity, ops, op, s.cache.data, s'.cache.data, s.origin);
  }

  /** In every run every entry goes back to a search that computed it, finished later, and has not been invalidated
      since it was stored. */
  lemma {:induction false} EveryEntryIsTraced(cfg: Config, store: Store, capacity: int, ops: seq<Op>)
    ensures Traced(cfg, store, capacity, ops, Run(cfg, store, capacity, ops))
  {
    hide Traced, Apply, Run;
    if ops == [] {
      BeginIsTraced(cfg, store, capacity);
    } else {
      var n := |ops| - 1;
      var s, op := Run(cfg, store, capacity, ops[..n]), ops[n];
      EveryEntryIsTraced(cfg, store, capacity, ops[..n]);
      assert ops[..n] + [op] == ops;
      RunLast(cfg, store, capacity, ops);
      match op
      case Start(_, _, _) => StartKeepsTraced(cfg, store, capacity, ops[..n], s, op);
      case Finish(_) => FinishKeepsTraced(cfg, store, capacity, ops[..n], s, op);
      case _ => OthersKeepTraced(cfg, store, capacity, ops[..n], s, op);
    }
  }

  lemma {:induction false} BeginIsTraced(cfg: Config, store: Store, capacity: int)
    ensures Traced(cfg, store, capacity, [], Run(cfg, store, capacity, []))
  {
  }

  lemma {:induction false} RunLast(cfg: Config, store: Store, capacity: int, ops: seq<Op>)
    requires ops != []
    ensures Run(cfg, store, capacity, ops) == Apply(cfg, Run(cfg, store, capacity, ops[..|ops|-1]), ops[|ops|-1])
  {
    hide Apply;
  }

  // ------------------------------------------------------------------
  // What a hit says
  // ------------------------------------------------------------------

  /** Where the entry a search hits comes from. */
  function OriginOf(cfg: Config, s: System, indices: seq<string>, body: string): (o: Origin)
    requires KeyIn(cfg, indices, body) in s.origin
  {
    s.origin[KeyIn(cfg, indices, body)]
  }

  /** In every run a hit is the answer to the same search at the step it was computed in. */
  lemma {:induction false} HitIsAnswerThen(cfg: Config, store: Store, capacity: int, ops: seq<Op>, indices: seq<string>,
                                           body: string)
    requires Faithful(cfg.key) && ProperOps(ops) && Proper(indices)
    requires Hit(cfg, Run(cfg, store, capacity, ops), indices, body).Some?
    ensures var s, k := Run(cfg, store, capacity, ops), KeyIn(cfg, indices, body);
      k in s.origin && var o := s.origin[k];
      && o.evaluated < o.stored < |ops|
      && ops[o.evaluated] == Start(o.id, indices, body) && ops[o.stored] == Finish(o.id)
      && Hit(cfg, s, indices, body) == cfg.eval(Run(cfg, store, capacity, ops[..o.evaluated]).store, indices, body)
      && (forall n :: o.evaluated < n < o.stored ==> ops[n] != Finish(o.id))
      && (forall n, i :: o.stored <= n < |ops| && i in indices ==> !Invalidates(ops[n], i))
  {
    EveryEntryIsTraced(cfg, store, capacity, ops);
    var s, k := Run(cfg, store, capacity, ops), KeyIn(cfg, indices, body);
    hide Run, Valid, AllPendingTraced, Proper, Invalidates;
    var o := s.origin[k];
    assert EntryTraced(cfg, store, capacity, ops, k, s.cache.data[k], o);
    assert ops[o.evaluated] in ops;
    assert cfg.key(o.indices, o.body) == cfg.key(indices, body);
  }

  lemma {:induction false} SameOnTransitive(a: Store, b: Store, c: Store, indices: seq<string>)
    requires SameOn(a, b, indices) && SameOn(b, c, indices)
    ensures SameOn(a, c, indices)
  {
  }

  lemma {:induction false} ApplyStore(cfg: Config, s: System, op: Op)
    ensures Apply(cfg, s, op).store == if op.Change? then StoreChanged(s.store, op.index, op.contents) else s.store
  {
  }

  /** Steps that change none of the indices. */
  lemma {:induction false} UnchangedOn(cfg: Config, store: Store, capacity: int, ops: seq<Op>, from: nat,
                                       indices: seq<string>)
    requires from <= |ops|
    requires forall m :: from <= m < |ops| && ops[m].Change? ==> ops[m].index !in indices
    ensures SameOn(Run(cfg, store, capacity, ops[..from]).store, Run(cfg, store, capacity, ops).store, indices)
  {
    if from == |ops| {
      assert ops[..from] == ops;
    } else {
      var n := |ops| - 1;
      UnchangedOn(cfg, store, capacity, ops[..n], from, indices);
      assert ops[..n][..from] == ops[..from];
      var a, b, c := Run(cfg, store, capacity, ops[..from]), Run(cfg, store, capacity, ops[..n]),
                     Run(cfg, store, capacity, ops);
      assert c == Apply(cfg, b, ops[n]);
      hide Run, Apply;
      ApplyStore(cfg, b, ops[n]);
      assert SameOn(b.store, c.store, indices);
      hide SameOn;
      SameOnTransitive(a.store, b.store, c.store, indices);
    }
  }

  /** The change in step m touched an index of the search after its answer was computed, and was not followed by an
      invalidation of that index once the answer was stored. */
  predicate Overlooked(ops: seq<Op>, o: Origin, indices: seq<string>, m: nat) {
    && o.evaluated < m < |ops| && ops[m].Change? && ops[m].index in indices
    && forall n :: m <= n < |ops| && o.stored <= n ==> !Invalidates(ops[n], ops[m].index)
  }

  /** In every run a stale hit has one of two causes: a change overtook the search between computing and storing, or a
      change has not been invalidated. */
  lemma {:induction false} StaleHitExplained(cfg: Config, store: Store, capacity: int, ops: seq<Op>,
                                             indices: seq<string>, body: string)
    requires Local(cfg.eval) && Faithful(cfg.key) && ProperOps(ops) && Proper(indices)
    requires var s := Run(cfg, store, capacity, ops);
      Hit(cfg, s, indices, body).Some? && Hit(cfg, s, indices, body) != cfg.eval(s.store, indices, body)
    ensures var s := Run(cfg, store, capacity, ops);
      && KeyIn(cfg, indices, body) in s.origin
      && exists m :: Overlooked(ops, OriginOf(cfg, s, indices, body), indices, m)
  {
    HitIsAnswerThen(cfg, store, capacity, ops, indices, body);
    hide Run, Proper, Hit, Invalidates, Faithful, ProperOps;
    var o := OriginOf(cfg, Run(cfg, store, capacity, ops), indices, body);
    if forall m :: o.evaluated <= m < |ops| && ops[m].Change? ==> ops[m].index !in indices {
      UnchangedOn(cfg, store, capacity, ops, o.evaluated, indices);
    } else {
      var m :| o.evaluated <= m < |ops| && ops[m].Change? && ops[m].index in indices;
      assert Overlooked(ops, o, indices, m);
    }
  }

  // ------------------------------------------------------------------
  // Exactly when hits are fresh
  // ------------------------------------------------------------------

  /** Every hit is what a search would compute now. */
  ghost predicate Fresh(cfg: Config, s: System) {
    forall indices, body :: Proper(indices) && Hit(cfg, s, indices, body).Some? ==>
      Hit(cfg, s, indices, body) == cfg.eval(s.store, indices, body)
  }

  /** A search that stores its answer still has the answer of this moment; a change that invalidates nothing changes no
      answer that is cached. */
  predicate KeepsFresh(cfg: Config, s: System, op: Op) {
    match op
    case Finish(id) =>
      id in s.inflight && Cacheable(cfg, s.inflight[id].response) ==>
        var p := s.inflight[id]; cfg.eval(s.store, p.indices, p.body) == p.response
    case Change(index, contents, invalidates) =>
      !invalidates ==>
        forall k :: k in s.cache.data && k in s.origin && index in s.origin[k].indices ==>
          var o := s.origin[k];
          cfg.eval(StoreChanged(s.store, index, contents), o.indices, o.body) == Some(s.cache.data[k].value)
    case _ => true
  }

  predicate Recorded(cfg: Config, s: System) {
    forall k :: k in s.cache.data ==>
      && k in s.origin && Proper(s.origin[k].indices) && s.origin[k].indices != []
      && s.cache.data[k].indexes == s.origin[k].indices
      && k == KeyIn(cfg, s.origin[k].indices, s.origin[k].body)
  }

  lemma {:induction false} RunsAreRecorded(cfg: Config, store: Store, capacity: int, ops: seq<Op>)
    requires ProperOps(ops)
    ensures Recorded(cfg, Run(cfg, store, capacity, ops)) && Valid(Run(cfg, store, capacity, ops).cache)
  {
    EveryEntryIsTraced(cfg, store, capacity, ops);
    var s := Run(cfg, store, capacity, ops);
    hide Run, Valid, AllPendingTraced, Proper, Invalidates;
    forall k | k in s.cache.data
      ensures k in s.origin && Proper(s.origin[k].indices) && s.origin[k].indices != []
      ensures s.cache.data[k].indexes == s.origin[k].indices && k == KeyIn(cfg, s.origin[k].indices, s.origin[k].body)
    {
      assert EntryTraced(cfg, store, capacity, ops, k, s.cache.data[k], s.origin[k]);
      assert ops[s.origin[k].evaluated] in ops;
    }
  }

  predicate EntriesFresh(cfg: Config, s: System) {
    forall k :: k in s.cache.data && k in s.origin ==>
      cfg.eval(s.store, s.origin[k].indices, s.origin[k].body) == Some(s.cache.data[k].value)
  }

  lemma {:induction false} FreshByEntries(cfg: Config, s: System)
    requires Faithful(cfg.key) && Recorded(cfg, s)
    ensures Fresh(cfg, s) <==> EntriesFresh(cfg, s)
  {
    hide Proper;
    if Fresh(cfg, s) {
      forall k | k in s.cache.data && k in s.origin
        ensures cfg.eval(s.store, s.origin[k].indices, s.origin[k].body) == Some(s.cache.data[k].value)
      {
        var o := s.origin[k];
        assert Hit(cfg, s, o.indices, o.body) == Some(s.cache.data[k].value);
      }
    }
    if EntriesFresh(cfg, s) {
      forall indices, body | Proper(indices) && Hit(cfg, s, indices, body).Some?
        ensures Hit(cfg, s, indices, body) == cfg.eval(s.store, indices, body)
      {
        var o := s.origin[KeyIn(cfg, indices, body)];
        assert cfg.key(o.indices, o.body) == cfg.key(indices, body);
      }
    }
  }

  /** A step from a state in which every hit is fresh. */
  lemma {:induction false} StepFreshExactlyWhen(cfg: Config, s: System, op: Op)
    requires Local(cfg.eval) && Valid(s.cache) && Recorded(cfg, s) && EntriesFresh(cfg, s)
    ensures EntriesFresh(cfg, Apply(cfg, s, op)) <==> KeepsFresh(cfg, s, op)
  {
    hide Proper, Valid;
    match op
    case Start(id, indices, body) =>
      hide Local;
      assert Get(s.cache, KeyIn(cfg, indices, body)).data == s.cache.data;
      hide Get;
    case Finish(id) =>
      hide Local;
      FinishFreshExactlyWhen(cfg, s, id);
    case Change(index, contents, invalidates) =>
      ChangeFreshExactlyWhen(cfg, s, index, contents, invalidates);
    case Invalidate(index) =>
      InvalidatedData(s.cache, index);
      hide Invalidated;
    case InvalidateEverything =>
  }

  lemma {:induction false} FinishFreshExactlyWhen(cfg: Config, s: System, id: nat)
    requires Recorded(cfg, s) && EntriesFresh(cfg, s)
    ensures EntriesFresh(cfg, Finished(cfg, s, id)) <==> KeepsFresh(cfg, s, Finish(id))
  {
    hide Proper;
    if id in s.inflight && Cacheable(cfg, s.inflight[id].response) {
      var p := s.inflight[id];
      SetData(s.cache, KeyIn(cfg, p.indices, p.body), Entry(p.response.value, p.indices));
      hide Set;
    }
  }

  lemma {:induction false} ChangeFreshExactlyWhen(cfg: Config, s: System, index: string, contents: Option<State>,
                                                  invalidates: bool)
    requires Local(cfg.eval) && Valid(s.cache) && Recorded(cfg, s) && EntriesFresh(cfg, s)
    ensures EntriesFresh(cfg, Changed(s, index, contents, invalidates)) <==>
            KeepsFresh(cfg, s, Change(index, contents, invalidates))
  {
    OthersAnswerAlike(cfg, s, index, contents);
    CachedAfterChange(cfg, s, index, contents, invalidates);
    var s' := Changed(s, index, contents, invalidates);
    hide Local, Valid, Changed, Recorded;
    assert KeepsFresh(cfg, s, Change(index, contents, invalidates)) <==>
           (!invalidates ==>
              forall k :: k in s.cache.data && index in s.origin[k].indices ==> AnswerOf(cfg, s, s'.store, k));
    assert EntriesFresh(cfg, s') <==> forall k :: k in s'.cache.data ==> AnswerOf(cfg, s, s'.store, k);
    hide KeepsFresh, EntriesFresh;
    assert forall k :: k in s.cache.data && index !in s.origin[k].indices ==> AnswerOf(cfg, s, s'.store, k);
    hide AnswerOf;
  }

  /** The entries that are left, with their origins. */
  lemma {:induction false} CachedAfterChange(cfg: Config, s: System, index: string, contents: Option<State>,
                                             invalidates: bool)
    requires Valid(s.cache) && Recorded(cfg, s)
    ensures var s' := Changed(s, index, contents, invalidates);
      && s'.store == StoreChanged(s.store, index, contents) && s'.origin == s.origin
      && (!invalidates ==> s'.cache == s.cache)
      && (forall k :: k in s.cache.data ==> k in s.origin)
      && (forall k :: k in s'.cache.data ==> k in s.cache.data && s'.cache.data[k] == s.cache.data[k])
      && (forall k :: invalidates && k in s'.cache.data ==> index !in s.origin[k].indices)
  {
    InvalidatedData(s.cache, index);
    hide Valid, Invalidated, StoreChanged, SortedNames, AllClean;
  }

  /** The cached answer is that of this store. */
  predicate AnswerOf(cfg: Config, s: System, store: Store, k: string) {
    k in s.cache.data && k in s.origin
    && cfg.eval(store, s.origin[k].indices, s.origin[k].body) == Some(s.cache.data[k].value)
  }

  lemma {:induction false} OthersAnswerAlike(cfg: Config, s: System, index: string, contents: Option<State>)
    requires Local(cfg.eval)
    ensures forall o: Origin :: index !in o.indices ==>
      cfg.eval(StoreChanged(s.store, index, contents), o.indices, o.body) == cfg.eval(s.store, o.indices, o.body)
  {
    var store' := StoreChanged(s.store, index, contents);
    forall o: Origin | index !in o.indices
      ensures cfg.eval(store', o.indices, o.body) == cfg.eval(s.store, o.indices, o.body)
    {
      assert SameOn(store', s.store, o.indices);
    }
  }

  /** In any run, with searches and changes interleaved as they may be, every hit at every moment is fresh if and only
      if every search stores the answer of the moment it stores it, and every change that invalidates nothing, such as a
      deletion by the lifecycle policy or a write of a running reindex, leaves the cached answers as they are. */
  lemma {:induction false} RunsFreshExactlyWhen(cfg: Config, store: Store, capacity: int, ops: seq<Op>)
    requires Local(cfg.eval) && Faithful(cfg.key) && ProperOps(ops)
    ensures (forall n :: 0 <= n <= |ops| ==> Fresh(cfg, Run(cfg, store, capacity, ops[..n]))) <==>
            (forall n :: 0 <= n < |ops| ==> KeepsFresh(cfg, Run(cfg, store, capacity, ops[..n]), ops[n]))
  {
    hide Run, Local, Faithful, KeepsFresh, Fresh;
    if ops == [] {
      EmptyIsFresh(cfg, store, capacity);
    } else {
      var n := |ops| - 1;
      RunsFreshExactlyWhen(cfg, store, capacity, ops[..n]);
      hide ProperOps;
      assert forall m :: 0 <= m <= n ==> ops[..n][..m] == ops[..m];
      assert ops[..n + 1] == ops;
      if Fresh(cfg, Run(cfg, store, capacity, ops[..n])) {
        LastStep(cfg, store, capacity, ops);
      } else {
        assert 0 <= n <= |ops[..n]|;
      }
    }
  }

  lemma {:induction false} EmptyIsFresh(cfg: Config, store: Store, capacity: int)
    ensures Fresh(cfg, Run(cfg, store, capacity, []))
  {
  }

  lemma {:induction false} LastStep(cfg: Config, store: Store, capacity: int, ops: seq<Op>)
    requires Local(cfg.eval) && Faithful(cfg.key) && ProperOps(ops) && ops != []
    requires Fresh(cfg, Run(cfg, store, capacity, ops[..|ops|-1]))
    ensures Fresh(cfg, Run(cfg, store, capacity, ops)) <==>
            KeepsFresh(cfg, Run(cfg, store, capacity, ops[..|ops|-1]), ops[|ops|-1])
  {
    var n := |ops| - 1;
    var s, s' := Run(cfg, store, capacity, ops[..n]), Run(cfg, store, capacity, ops);
    assert s' == Apply(cfg, s, ops[n]);
    RunsAreRecorded(cfg, store, capacity, ops[..n]);
    RunsAreRecorded(cfg, store, capacity, ops);
    hide Run, Apply, Local, Faithful, Proper, KeepsFresh, Fresh, Recorded, EntriesFresh, Valid;
    FreshByEntries(cfg, s);
    FreshByEntries(cfg, s');
    StepFreshExactlyWhen(cfg, s, ops[n]);
  }

  // ------------------------------------------------------------------
  // Guards on the steps themselves
  // ------------------------------------------------------------------

  predicate LeavesAsIs(store: Store, index: string, contents: Option<State>) {
    if index in store then contents == Some(store[index]) else contents == None
  }

  /** Some cached answer is that of a search over the index. */
  predicate CachedOver(c: Cached, index: string) { exists k :: k in c.data && index in c.data[k].indexes }

  /** The indices of the search are as they were when it computed its answer, or that answer is cached already. */
  predicate MayStore(cfg: Config, s: System, before: Store, p: Pending) {
    var k := KeyIn(cfg, p.indices, p.body);
    SameOn(before, s.store, p.indices) || (k in s.cache.data && Some(s.cache.data[k].value) == p.response)
  }

  /** The store a search in flight has seen. */
  function SeenBy(store: Store, ops: seq<Op>, p: Pending): Store {
    if p.at <= |ops| then StoreAfter(store, ops[..p.at]) else store
  }

  /** A search that stores its answer still finds its indices as it did; a change that invalidates nothing changes
      nothing, or an index no cached answer is about. */
  predicate Guarded(cfg: Config, store: Store, ops: seq<Op>, s: System, op: Op) {
    match op
    case Finish(id) =>
      id in s.inflight && Cacheable(cfg, s.inflight[id].response) ==>
        MayStore(cfg, s, SeenBy(store, ops, s.inflight[id]), s.inflight[id])
    case Change(index, contents, invalidates) =>
      invalidates || LeavesAsIs(s.store, index, contents) || !CachedOver(s.cache, index)
    case _ => true
  }

  /** This way of searching gives the cached answers now, and gave the answer about to be stored. */
  ghost predicate Agrees(cfg: Config, store: Store, ops: seq<Op>, s: System, op: Op) {
    && Local(cfg.eval) && Fresh(cfg, s)
    && (op.Finish? && op.id in s.inflight ==>
          var p := s.inflight[op.id]; cfg.eval(SeenBy(store, ops, p), p.indices, p.body) == p.response)
  }

  ghost predicate Tracked(cfg: Config, store: Store, ops: seq<Op>, inflight: map<nat, Pending>) {
    forall id :: id in inflight ==>
      var p := inflight[id];
      Proper(p.indices) && p.indices != [] && p.response == cfg.eval(SeenBy(store, ops, p), p.indices, p.body)
  }

  lemma {:induction false} RunsAreTracked(cfg: Config, store: Store, capacity: int, ops: seq<Op>)
    requires ProperOps(ops)
    ensures Tracked(cfg, store, ops, Run(cfg, store, capacity, ops).inflight)
  {
    EveryEntryIsTraced(cfg, store, capacity, ops);
    var inflight := Run(cfg, store, capacity, ops).inflight;
    hide Run, StoreAfter, Valid, Proper, AllEntriesTraced;
    forall id | id in inflight
      ensures var p := inflight[id];
        Proper(p.indices) && p.indices != [] && p.response == cfg.eval(SeenBy(store, ops, p), p.indices, p.body)
    {
      var p := inflight[id];
      assert PendingTraced(cfg, store, capacity, ops, id, p);
      assert ops[p.at] in ops;
      StoreOfRun(cfg, store, capacity, ops[..p.at]);
    }
  }

  lemma {:induction false} StoreOfRun(cfg: Config, store: Store, capacity: int, ops: seq<Op>)
    ensures Run(cfg, store, capacity, ops).store == StoreAfter(store, ops)
  {
    ExecStore(cfg, Begin(store, capacity), ops);
    hide Exec;
  }

  lemma {:induction false} GuardedKeepsFresh(cfg: Config, store: Store, ops: seq<Op>, s: System, op: Op)
    requires Agrees(cfg, store, ops, s, op) && Recorded(cfg, s) && EntriesFresh(cfg, s)
    requires forall id :: id in s.inflight ==> Proper(s.inflight[id].indices) && s.inflight[id].indices != []
    requires Guarded(cfg, store, ops, s, op)
    ensures KeepsFresh(cfg, s, op)
  {
    hide Proper, SeenBy;
    match op
    case Finish(id) =>
      if id in s.inflight && Cacheable(cfg, s.inflight[id].response) {
        var p := s.inflight[id];
        var k := KeyIn(cfg, p.indices, p.body);
        if !SameOn(SeenBy(store, ops, p), s.store, p.indices) {
          assert Hit(cfg, s, p.indices, p.body) == Some(s.cache.data[k].value);
        }
      }
    case Change(index, contents, invalidates) =>
      if LeavesAsIs(s.store, index, contents) {
        assert StoreChanged(s.store, index, contents) == s.store;
      }
    case _ =>
  }

  /** What is cached after a step does not depend on the way of searching. */
  lemma {:induction false} ApplyAlike(cfg: Config, eval: Eval, s: System, op: Op)
    ensures var a, b := Apply(cfg, s, op), Apply(cfg.(eval := eval), s, op);
      a.store == b.store && a.cache == b.cache && a.origin == b.origin
  {
    hide Get, Set, Invalidated, InvalidateAll, StoreChanged;
  }

  lemma {:induction false} RecordedAlike(cfg: Config, eval: Eval, s: System, s': System)
    requires Recorded(cfg, s) && s.cache == s'.cache && s.origin == s'.origin
    ensures Recorded(cfg.(eval := eval), s')
  {
    hide Proper;
  }

  lemma {:induction false} GuardedAlike(cfg: Config, eval: Eval, store: Store, ops: seq<Op>, s: System, op: Op)
    ensures Guarded(cfg, store, ops, s, op) == Guarded(cfg.(eval := eval), store, ops, s, op)
  {
    hide SeenBy, SameOn, LeavesAsIs, CachedOver;
  }

  lemma {:induction false} GuardedStaysFresh(cfg: Config, eval: Eval, store: Store, capacity: int, ops: seq<Op>, op: Op)
    requires Faithful(cfg.key) && ProperOps(ops + [op])
    requires var s := Run(cfg, store, capacity, ops);
      Guarded(cfg, store, ops, s, op) && Agrees(cfg.(eval := eval), store, ops, s, op)
    ensures var cfg' := cfg.(eval := eval); Fresh(cfg', Apply(cfg', Run(cfg, store, capacity, ops), op))
  {
    hide Apply, Run, Valid, Faithful, Proper, SeenBy, MayStore, Recorded, KeepsFresh, Fresh, EntriesFresh, Local;
    var s, cfg' := Run(cfg, store, capacity, ops), cfg.(eval := eval);
    var s' := Apply(cfg', s, op);
    assert ProperOps(ops) && (ops + [op])[..|ops|] == ops;
    RunsAreRecorded(cfg, store, capacity, ops);
    RunsAreRecorded(cfg, store, capacity, ops + [op]);
    RunsAreTracked(cfg, store, capacity, ops);
    RunLast(cfg, store, capacity, ops + [op]);
    ApplyAlike(cfg, eval, s, op);
    RecordedAlike(cfg, eval, s, s);
    RecordedAlike(cfg, eval, Run(cfg, store, capacity, ops + [op]), s');
    FreshByEntries(cfg', s);
    FreshByEntries(cfg', s');
    GuardedAlike(cfg, eval, store, ops, s, op);
    GuardedKeepsFresh(cfg', store, ops, s, op);
    StepFreshExactlyWhen(cfg', s, op);
  }

  /** Gives the cached answers as long as the indices are as now, and the answer of p if they are as before. */
  function Replay(cfg: Config, s: System, before: Store, p: Pending): Eval {
    (st: Store, indices: seq<string>, body: string) =>
      if SameOn(s.store, st, indices) then Hit(cfg, s, indices, body)
      else if indices == p.indices && body == p.body && SameOn(before, st, indices) then p.response
      else None
  }

  lemma {:induction false} ReplayIsLocal(cfg: Config, s: System, before: Store, p: Pending)
    ensures Local(Replay(cfg, s, before, p))
  {
    hide Hit;
    var eval := Replay(cfg, s, before, p);
    forall a, b, indices, body | SameOn(a, b, indices) ensures eval(a, indices, body) == eval(b, indices, body) {
      assert SameOn(s.store, a, indices) <==> SameOn(s.store, b, indices);
      assert SameOn(before, a, indices) <==> SameOn(before, b, indices);
    }
  }

  lemma {:induction false} ReplayIsFresh(cfg: Config, s: System, before: Store, p: Pending)
    ensures Fresh(cfg.(eval := Replay(cfg, s, before, p)), s)
  {
    hide Proper;
    var cfg' := cfg.(eval := Replay(cfg, s, before, p));
    forall indices, body | Proper(indices) && Hit(cfg', s, indices, body).Some?
      ensures Hit(cfg', s, indices, body) == cfg'.eval(s.store, indices, body)
    {
      assert SameOn(s.store, s.store, indices) && Hit(cfg', s, indices, body) == Hit(cfg, s, indices, body);
    }
  }

  /** A search that may not store its answer: some way of searching is stale afterwards. */
  lemma {:induction false} StoredIsStale(cfg: Config, store: Store, ops: seq<Op>, s: System, id: nat)
    returns (eval: Eval)
    requires id in s.inflight && Proper(s.inflight[id].indices) && s.inflight[id].indices != []
    requires !Guarded(cfg, store, ops, s, Finish(id))
    ensures var cfg' := cfg.(eval := eval);
      Agrees(cfg', store, ops, s, Finish(id)) && !Fresh(cfg', Apply(cfg', s, Finish(id)))
  {
    hide Proper, SeenBy;
    var p := s.inflight[id];
    var before, k := SeenBy(store, ops, p), KeyIn(cfg, p.indices, p.body);
    eval := Replay(cfg, s, before, p);
    ReplayIsLocal(cfg, s, before, p);
    ReplayIsFresh(cfg, s, before, p);
    assert !SameOn(s.store, before, p.indices);
    var cfg' := cfg.(eval := eval);
    assert Agrees(cfg', store, ops, s, Finish(id)) by {
      hide Fresh;
    }
    var s' := Apply(cfg', s, Finish(id));
    SetData(s.cache, k, Entry(p.response.value, p.indices));
    hide Set, Agrees, Local;
    assert Hit(cfg', s', p.indices, p.body) == p.response && s'.store == s.store;
    assert eval(s.store, p.indices, p.body) == Hit(cfg, s, p.indices, p.body) != p.response;
  }

  lemma {:induction false} ChangedIsStale(cfg: Config, store: Store, ops: seq<Op>, s: System, index: string,
                                          contents: Option<State>) returns (eval: Eval)
    requires Recorded(cfg, s) && !Guarded(cfg, store, ops, s, Change(index, contents, false))
    ensures var cfg', op := cfg.(eval := eval), Change(index, contents, false);
      Agrees(cfg', store, ops, s, op) && !Fresh(cfg', Apply(cfg', s, op))
  {
    hide Proper;
    var p, op := Pending([], "", None, 0), Change(index, contents, false);
    eval := Replay(cfg, s, s.store, p);
    ReplayIsLocal(cfg, s, s.store, p);
    ReplayIsFresh(cfg, s, s.store, p);
    var cfg' := cfg.(eval := eval);
    assert Agrees(cfg', store, ops, s, op) by {
      hide Fresh;
    }
    hide Agrees, Local;
    var k :| k in s.cache.data && index in s.cache.data[k].indexes;
    var o, s' := s.origin[k], Apply(cfg', s, op);
    assert Hit(cfg', s', o.indices, o.body) == Some(s.cache.data[k].value);
    assert !SameOn(s.store, s'.store, o.indices);
    assert eval(s'.store, o.indices, o.body) == None;
  }

  /** After any run, the next step leaves every hit fresh, for every way of searching that agrees with what is cached
      and about to be stored, if and only if it is guarded. */
  lemma {:induction false} NextStepFreshExactlyWhen(cfg: Config, store: Store, capacity: int, ops: seq<Op>, op: Op)
    requires Faithful(cfg.key) && ProperOps(ops + [op])
    ensures var s := Run(cfg, store, capacity, ops);
      (forall eval: Eval :: var cfg' := cfg.(eval := eval);
         Agrees(cfg', store, ops, s, op) ==> Fresh(cfg', Apply(cfg', s, op))) <==>
      Guarded(cfg, store, ops, s, op)
  {
    hide Run, Apply, Agrees, Fresh, Faithful, Proper, Recorded, SeenBy, MayStore;
    var s := Run(cfg, store, capacity, ops);
    assert ProperOps(ops);
    RunsAreRecorded(cfg, store, capacity, ops);
    RunsAreTracked(cfg, store, capacity, ops);
    if Guarded(cfg, store, ops, s, op) {
      forall eval: Eval | Agrees(cfg.(eval := eval), store, ops, s, op)
        ensures Fresh(cfg.(eval := eval), Apply(cfg.(eval := eval), s, op))
      {
        GuardedStaysFresh(cfg, eval, store, capacity, ops, op);
      }
    } else if op.Finish? {
      var eval := StoredIsStale(cfg, store, ops, s, op.id);
    } else {
      var eval := ChangedIsStale(cfg, store, ops, s, op.index, op.contents);
    }
  }

  lemma {:induction false} GuardedStep(cfg: Config, store: Store, capacity: int, ops: seq<Op>, op: Op)
    requires Local(cfg.eval) && Faithful(cfg.key) && ProperOps(ops + [op])
    requires Fresh(cfg, Run(cfg, store, capacity, ops))
    requires Guarded(cfg, store, ops, Run(cfg, store, capacity, ops), op)
    ensures Fresh(cfg, Run(cfg, store, capacity, ops + [op]))
  {
    assert ProperOps(ops) && (ops + [op])[..|ops|] == ops && cfg.(eval := cfg.eval) == cfg;
    hide Run, Local, Faithful, Guarded, Fresh, Proper, Apply, SeenBy;
    RunLast(cfg, store, capacity, ops + [op]);
    RunsAreTracked(cfg, store, capacity, ops);
    GuardedStaysFresh(cfg, cfg.eval, store, capacity, ops, op);
  }

  /** With every step guarded, every hit is fresh. */
  lemma {:induction false} GuardedRunsAreFresh(cfg: Config, store: Store, capacity: int, ops: seq<Op>)
    requires Local(cfg.eval) && Faithful(cfg.key) && ProperOps(ops)
    requires forall n :: 0 <= n < |ops| ==>
               Guarded(cfg, store, ops[..n], Run(cfg, store, capacity, ops[..n]), ops[n])
    ensures Fresh(cfg, Run(cfg, store, capacity, ops))
  {
    hide Run, Local, Faithful, Guarded, Fresh, Proper;
    if ops == [] {
      EmptyIsFresh(cfg, store, capacity);
    } else {
      var n := |ops| - 1;
      assert forall m :: 0 <= m <= n ==> ops[..n][..m] == ops[..m];
      assert ops[..n] + [ops[n]] == ops;
      GuardedRunsAreFresh(cfg, store, capacity, ops[..n]);
      GuardedStep(cfg, store, capacity, ops[..n], ops[n]);
    }
  }

  /** A deletion by the lifecycle policy invalidates nothing. For every way of searching that made every hit fresh
      before it, every hit is fresh after it, if and only if there was no such index or no cached search over it. */
  lemma {:induction false} LifecycleDeleteFreshExactlyWhen(cfg: Config, store: Store, capacity: int, ops: seq<Op>,
                                                           index: string)
    requires Faithful(cfg.key) && ProperOps(ops)
    ensures var s, delete := Run(cfg, store, capacity, ops), Change(index, None, false);
      (forall eval: Eval :: var cfg' := cfg.(eval := eval);
         Local(eval) && Fresh(cfg', s) ==> Fresh(cfg', Apply(cfg', s, delete))) <==>
      index !in s.store || !CachedOver(s.cache, index)
  {
    hide Run, Apply, Fresh, Local, Faithful, Proper, CachedOver;
    NextStepFreshExactlyWhen(cfg, store, capacity, ops, Change(index, None, false));
  }

  /** Every change invalidates its index in the same step. */
  predicate Prompt(ops: seq<Op>) { forall op :: op in ops && op.Change? ==> op.invalidates }

  /** Between the two steps of a search none of its indices changes. */
  predicate NotOvertaken(ops: seq<Op>) {
    forall i, m, j :: 0 <= i < m < j < |ops| && ops[i].Start? && ops[j] == Finish(ops[i].id) && ops[m].Change?
                      && (forall n :: i < n < j ==> ops[n] != Finish(ops[i].id))
      ==> ops[m].index !in ops[i].indices
  }

  /** With prompt invalidation and no search overtaken, every hit is fresh. */
  lemma {:induction false} PromptRunsAreFresh(cfg: Config, store: Store, capacity: int, ops: seq<Op>)
    requires Local(cfg.eval) && Faithful(cfg.key) && ProperOps(ops) && Prompt(ops) && NotOvertaken(ops)
    ensures Fresh(cfg, Run(cfg, store, capacity, ops))
  {
    var s := Run(cfg, store, capacity, ops);
    hide Run, Local, Faithful, Prompt, NotOvertaken, Proper, Hit, Invalidates, Overlooked;
    forall indices, body | Proper(indices) && Hit(cfg, s, indices, body).Some?
      ensures Hit(cfg, s, indices, body) == cfg.eval(s.store, indices, body)
    {
      if Hit(cfg, s, indices, body) != cfg.eval(s.store, indices, body) {
        HitIsAnswerThen(cfg, store, capacity, ops, indices, body);
        StaleHitExplained(cfg, store, capacity, ops, indices, body);
        var o := OriginOf(cfg, s, indices, body);
        var m :| Overlooked(ops, o, indices, m);
        NothingOverlooked(ops, o, indices, m);
      }
    }
  }

  lemma {:induction false} NothingOverlooked(ops: seq<Op>, o: Origin, indices: seq<string>, m: nat)
    requires Prompt(ops) && NotOvertaken(ops) && Proper(indices)
    requires o.stored < |ops| && ops[o.stored] == Finish(o.id) && o.evaluated < o.stored
    requires ops[o.evaluated].Start? && ops[o.evaluated].id == o.id && ops[o.evaluated].indices == indices
    requires forall n :: o.evaluated < n < o.stored ==> ops[n] != Finish(o.id)
    ensures !Overlooked(ops, o, indices, m)
  {
    if o.stored < m < |ops| && ops[m].Change? && ops[m].index in indices {
      assert ops[m] in ops;
      assert Invalidates(ops[m], ops[m].index);
    }
  }

  // ------------------------------------------------------------------
  // Why no write may fall between computing and storing
  // ------------------------------------------------------------------

  predicate Writes(ops: seq<Op>) { forall op :: op in ops ==> op.Change? || op.Invalidate? }

  function StoreAfter(store: Store, ops: seq<Op>): Store {
    if ops == [] then store
    else
      var prior, op := StoreAfter(store, ops[..|ops|-1]), ops[|ops|-1];
      if op.Change? then StoreChanged(prior, op.index, op.contents) else prior
  }

  lemma {:induction false} ExecConcat(cfg: Config, s: System, a: seq<Op>, b: seq<Op>)
    ensures Exec(cfg, s, a + b) == Exec(cfg, Exec(cfg, s, a), b)
  {
    if b == [] {
      assert a + b == a;
    } else {
      var n := |b| - 1;
      ExecConcat(cfg, s, a, b[..n]);
      assert (a + b)[..|a + b|-1] == a + b[..n];
    }
  }

  lemma {:induction false} ExecOne(cfg: Config, s: System, op: Op)
    ensures Exec(cfg, s, [op]) == Apply(cfg, s, op)
  {
    assert [op][..0] == [];
    hide Apply;
  }

  lemma {:induction false} ExecStore(cfg: Config, s: System, ops: seq<Op>)
    ensures Exec(cfg, s, ops).store == StoreAfter(s.store, ops)
  {
    if ops != [] {
      ExecStore(cfg, s, ops[..|ops|-1]);
      ApplyStore(cfg, Exec(cfg, s, ops[..|ops|-1]), ops[|ops|-1]);
      hide Apply;
    }
  }

  lemma {:induction false} WritesOnly(cfg: Config, s: System, ops: seq<Op>)
    requires Writes(ops)
    ensures var s' := Exec(cfg, s, ops);
      s'.store == StoreAfter(s.store, ops) && s'.inflight == s.inflight && s'.cache.data.Keys <= s.cache.data.Keys
  {
    if ops != [] {
      var n := |ops| - 1;
      assert ops[n] in ops && forall op :: op in ops[..n] ==> op in ops;
      WritesOnly(cfg, s, ops[..n]);
      hide RemoveAll, Get, Set;
    }
  }

  /** The search with this id runs, and the writes fall between its steps. */
  function Overtaking(cfg: Config, s: System, id: nat, indices: seq<string>, body: string, writes: seq<Op>): System {
    Exec(cfg, s, [Start(id, indices, body)] + writes + [Finish(id)])
  }

  lemma {:induction false} OvertakingLeaves(cfg: Config, s: System, id: nat, indices: seq<string>, body: string,
                                            writes: seq<Op>)
    requires Writes(writes) && indices != [] && id !in s.inflight && KeyIn(cfg, indices, body) !in s.cache.data
    ensures var s', at := Overtaking(cfg, s, id, indices, body, writes), cfg.eval(s.store, indices, body);
      && s'.store == StoreAfter(s.store, writes)
      && Hit(cfg, s', indices, body) == if Cacheable(cfg, at) then at else None
  {
    var start, finish := Start(id, indices, body), Finish(id);
    ExecConcat(cfg, s, [start] + writes, [finish]);
    ExecConcat(cfg, s, [start], writes);
    ExecOne(cfg, s, start);
    var s1 := Apply(cfg, s, start);
    var s2 := Exec(cfg, s1, writes);
    ExecOne(cfg, s2, finish);
    WritesOnly(cfg, s1, writes);
    assert s1.inflight[id].response == cfg.eval(s.store, indices, body);
    assert s1.store == s.store && s1.cache.data == s.cache.data;
    var r := s1.inflight[id].response;
    if Cacheable(cfg, r) {
      SetData(s2.cache, KeyIn(cfg, indices, body), Entry(r.value, indices));
    }
    hide Exec, Get, Set;
  }

  /** A search that nothing overtakes leaves its answer behind if and only if there is one and it is not too long. */
  lemma {:induction false} AnswerIsKeptExactlyWhen(cfg: Config, s: System, id: nat, indices: seq<string>, body: string)
    requires indices != [] && id !in s.inflight && KeyIn(cfg, indices, body) !in s.cache.data
    ensures var s', answer := Overtaking(cfg, s, id, indices, body, []), cfg.eval(s.store, indices, body);
      && (Hit(cfg, s', indices, body).Some? <==> answer.Some? && |answer.value| <= cfg.maxSize)
      && (Hit(cfg, s', indices, body).Some? ==> Hit(cfg, s', indices, body) == answer)
  {
    OvertakingLeaves(cfg, s, id, indices, body, []);
    hide Overtaking, Hit;
  }

  /** Whatever the search computes and however promptly the writes invalidate, a search that writes overtake leaves a
      fresh hit behind if and only if the writes leave its indices as they were when it computed. */
  lemma {:induction false} OvertakenFreshExactlyWhen(key: KeyOf, maxSize: nat, s: System, id: nat, indices: seq<string>,
                                                     body: string, writes: seq<Op>)
    requires Writes(writes) && indices != [] && id !in s.inflight && key(indices, body) !in s.cache.data
    ensures SameOn(s.store, StoreAfter(s.store, writes), indices) <==>
      forall eval: Eval :: Local(eval) ==>
        var cfg := Config(eval, key, maxSize);
        var s' := Overtaking(cfg, s, id, indices, body, writes);
        Hit(cfg, s', indices, body).Some? ==> Hit(cfg, s', indices, body) == eval(s'.store, indices, body)
  {
    hide Overtaking, Hit;
    if SameOn(s.store, StoreAfter(s.store, writes), indices) {
      forall eval: Eval | Local(eval)
        ensures var cfg := Config(eval, key, maxSize);
          var s' := Overtaking(cfg, s, id, indices, body, writes);
          Hit(cfg, s', indices, body).Some? ==> Hit(cfg, s', indices, body) == eval(s'.store, indices, body)
      {
        OvertakingLeaves(Config(eval, key, maxSize), s, id, indices, body, writes);
      }
    } else {
      var eval := Telling(s.store);
      TellingIsLocal(s.store);
      OvertakingLeaves(Config(eval, key, maxSize), s, id, indices, body, writes);
    }
  }

  /** A search that tells whether its indices are as they are in store. */
  function Telling(store: Store): Eval {
    (st: Store, indices: seq<string>, body: string) => if SameOn(store, st, indices) then Some("") else None
  }

  lemma {:induction false} TellingIsLocal(store: Store)
    ensures Local(Telling(store))
  {
    forall a, b, indices, body | SameOn(a, b, indices)
      ensures Telling(store)(a, indices, body) == Telling(store)(b, indices, body)
    {
      assert SameOn(store, a, indices) <==> SameOn(store, b, indices);
    }
  }
}
