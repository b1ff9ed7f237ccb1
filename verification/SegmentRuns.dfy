/** Runs of flushes and merges over many indices, with the global statistics (internal/server/segment.go). */
module SegmentRuns {
  import opened Collections
  import opened Common
  import opened InvertedIndex
  import opened Segments
  import Bloom

  datatype Manager = Manager(indices: map<string, IndexSegs>, totalSegments: int, totalBytes: int, totalFlushes: int)

  const BEGIN: Manager := Manager(map[], 0, 0, 0)

  function SegsOf(m: Manager, index: string): IndexSegs { if index in m.indices then m.indices[index] else NONE }

  /** The bytes of the segments ids. */
  function Bytes(ids: seq<nat>, sizes: map<nat, nat>): nat {
    if ids == [] then 0 else Bytes(ids[..|ids|-1], sizes) + (if ids[|ids|-1] in sizes then sizes[ids[|ids|-1]] else 0)
  }

  function NewBytes(segs: seq<Segment>, sizeOf: SizeOf): nat {
    if segs == [] then 0 else NewBytes(segs[..|segs|-1], sizeOf) + sizeOf(segs[|segs|-1])
  }

  function Flushed(m: Manager, index: string, news: seq<Segment>, sizeOf: SizeOf): Manager {
    Manager(m.indices[index := AppendAll(SegsOf(m, index), news, sizeOf)],
            m.totalSegments + |news|, m.totalBytes + NewBytes(news, sizeOf), m.totalFlushes + |news|)
  }

  function MergedAll(m: Manager, index: string, drop: seq<nat>, news: seq<Segment>, sizeOf: SizeOf): Manager {
    var s := SegsOf(m, index);
    Manager(m.indices[index := Merged(s, drop, news, sizeOf)],
            m.totalSegments + |news| - |drop|,
            m.totalBytes + NewBytes(news, sizeOf) - Bytes(drop, s.sizes), m.totalFlushes + |news|)
  }

  // ------------------------------------------------------------------
  // Runs
  // ------------------------------------------------------------------

  datatype Op =
    | Flush(index: string, snap: map<string, Terms>, news: seq<Segment>)
    | Merge(index: string, max: nat, drop: seq<nat>, news: seq<Segment>)

  function Apply(m: Manager, op: Op, sizeOf: SizeOf): Manager {
    match op
    case Flush(index, _, news) => Flushed(m, index, news, sizeOf)
    case Merge(index, _, drop, news) => MergedAll(m, index, drop, news, sizeOf)
  }

  ghost predicate Possible(h: Bloom.Hash, m: Manager, op: Op) {
    match op
    case Flush(index, snap, news) => IsFlush(h, snap, news)
    case Merge(index, max, drop, news) => Valid(SegsOf(m, index)) && IsMerge(h, SegsOf(m, index), max, drop, news)
  }

  function Run(ops: seq<Op>, sizeOf: SizeOf): Manager {
    if ops == [] then BEGIN else Apply(Run(ops[..|ops|-1], sizeOf), ops[|ops|-1], sizeOf)
  }

  /** Every operation was possible when it came. */
  ghost predicate IsRun(h: Bloom.Hash, ops: seq<Op>, sizeOf: SizeOf) {
    forall k :: 0 <= k < |ops| ==> Possible(h, Run(ops[..k], sizeOf), ops[k])
  }

  // ------------------------------------------------------------------
  // Sums over the indices
  // ------------------------------------------------------------------

  function Counts(m: Manager): map<string, nat> { map i | i in m.indices :: |m.indices[i].active| }

  function Sizes(m: Manager): map<string, nat> {
    map i | i in m.indices :: Bytes(m.indices[i].active, m.indices[i].sizes)
  }

  // ------------------------------------------------------------------
  // Bytes of one index
  // ------------------------------------------------------------------

  lemma {:induction false} BytesSame(ids: seq<nat>, a: map<nat, nat>, b: map<nat, nat>)
    requires forall id :: id in ids ==> id in a && id in b && a[id] == b[id]
    ensures Bytes(ids, a) == Bytes(ids, b)
  {
    if ids != [] {
      var n := |ids| - 1;
      assert ids == ids[..n] + [ids[n]];
      BytesSame(ids[..n], a, b);
    }
  }

  lemma {:induction false} BytesAfterAppend(s: IndexSegs, seg: Segment, size: nat)
    requires Valid(s)
    ensures var s' := Append(s, seg, size); Bytes(s'.active, s'.sizes) == Bytes(s.active, s.sizes) + size
  {
    var s' := Append(s, seg, size);
    assert s'.active[..|s'.active|-1] == s.active;
    BytesSame(s.active, s'.sizes, s.sizes);
  }

  lemma {:induction false} BytesAppended(s: IndexSegs, news: seq<Segment>, sizeOf: SizeOf)
    requires Valid(s)
    ensures var s' := AppendAll(s, news, sizeOf);
      Bytes(s'.active, s'.sizes) == Bytes(s.active, s.sizes) + NewBytes(news, sizeOf)
  {
    if news != [] {
      var n := |news| - 1;
      BytesAppended(s, news[..n], sizeOf);
      AppendAllKeeps(s, news[..n], sizeOf);
      AppendLast(s, news, sizeOf);
      hide AppendAll;
      BytesAfterAppend(AppendAll(s, news[..n], sizeOf), news[n], sizeOf(news[n]));
    }
  }

  lemma {:induction false} BytesConcat(a: seq<nat>, b: seq<nat>, sizes: map<nat, nat>)
    ensures Bytes(a + b, sizes) == Bytes(a, sizes) + Bytes(b, sizes)
  {
    if b == [] {
      assert a + b == a;
    } else {
      var n := |b| - 1;
      BytesConcat(a, b[..n], sizes);
      assert (a + b)[..|a + b|-1] == a + b[..n];
    }
  }

  lemma {:induction false} BytesOnePicked(ids: seq<nat>, k: nat, sizes: map<nat, nat>)
    requires k < |ids| && ids[k] in sizes
    ensures Bytes(ids, sizes) == Bytes(ids[..k] + ids[k+1..], sizes) + sizes[ids[k]]
  {
    var a, b := ids[..k], ids[k+1..];
    hide Bytes;
    BytesConcat(a, b, sizes);
    BytesConcat(a, [ids[k]] + b, sizes);
    BytesCons(ids[k], b, sizes);
    assert ids == a + ([ids[k]] + b);
  }

  /** What is kept and what is dropped add up. */
  lemma {:induction false} BytesSplit(ids: seq<nat>, drop: seq<nat>, sizes: map<nat, nat>)
    requires forall id :: id in ids ==> id in sizes
    requires (forall i, j :: 0 <= i < j < |ids| ==> ids[i] != ids[j]) && forall id :: id in drop ==> id in ids
    requires forall i, j :: 0 <= i < j < |drop| ==> drop[i] != drop[j]
    ensures Bytes(ids, sizes) == Bytes(FilterOut(ids, drop), sizes) + Bytes(drop, sizes)
    decreases |ids|
  {
    if ids == [] {
      EmptyOrMember(drop);
    } else {
      var head, rest := ids[0], ids[1..];
      assert ids == [head] + rest;
      BytesCons(head, rest, sizes);
      assert FilterOut(ids, drop) == (if head in drop then [] else [head]) + FilterOut(rest, drop);
      assert head in drop ==> FilterOut(ids, drop) == FilterOut(rest, drop);
      hide Bytes, FilterOut;
      if head in drop {
        var k := Picked(drop, head, rest);
        var drop' := drop[..k] + drop[k+1..];
        BytesOnePicked(drop, k, sizes);
        BytesSplit(rest, drop', sizes);
        FilterOutSame(rest, drop, drop', head);
      } else {
        forall id | id in drop ensures id in rest {
          assert id in ids;
        }
        BytesSplit(rest, drop, sizes);
        BytesCons(head, FilterOut(rest, drop), sizes);
      }
    }
  }

  lemma {:induction false} Picked(drop: seq<nat>, head: nat, rest: seq<nat>) returns (k: nat)
    requires head in drop && (forall i, j :: 0 <= i < j < |drop| ==> drop[i] != drop[j])
    requires forall id :: id in drop ==> id == head || id in rest
    ensures k < |drop| && drop[k] == head
    ensures var more := drop[..k] + drop[k+1..];
      && (forall i, j :: 0 <= i < j < |more| ==> more[i] != more[j]) && (forall id :: id in more ==> id in rest)
      && (forall id :: id in drop <==> id in more || id == head)
  {
    k :| 0 <= k < |drop| && drop[k] == head;
    var more := drop[..k] + drop[k+1..];
    assert drop == drop[..k] + [head] + drop[k+1..];
    forall i | 0 <= i < |more| ensures more[i] in drop && more[i] != head {
      assert more[i] == if i < k then drop[i] else drop[i+1];
    }
  }

  lemma {:induction false} BytesCons(head: nat, rest: seq<nat>, sizes: map<nat, nat>)
    requires head in sizes
    ensures Bytes([head] + rest, sizes) == sizes[head] + Bytes(rest, sizes)
  {
    BytesConcat([head], rest, sizes);
    assert [head][..0] == [];
  }

  lemma {:induction false} FilterOutSame(ids: seq<nat>, a: seq<nat>, b: seq<nat>, x: nat)
    requires x !in ids && forall y :: y in a <==> y in b || y == x
    ensures FilterOut(ids, a) == FilterOut(ids, b)
  {
    if ids != [] {
      assert ids == [ids[0]] + ids[1..];
      FilterOutSame(ids[1..], a, b, x);
    }
  }

  lemma {:induction false} BytesMerged(h: Bloom.Hash, s: IndexSegs, max: nat, drop: seq<nat>, news: seq<Segment>,
                                       sizeOf: SizeOf)
    requires Valid(s) && IsMerge(h, s, max, drop, news)
    ensures var s' := Merged(s, drop, news, sizeOf);
      Bytes(s'.active, s'.sizes) == Bytes(s.active, s.sizes) + NewBytes(news, sizeOf) - Bytes(drop, s.sizes)
  {
    var kept := Without(s, drop);
    WithoutKeepsValid(s, drop);
    BytesAppended(kept, news, sizeOf);
    FilterOutMembers(s.active, drop);
    hide AppendAll, FilterOut, SegmentFor, Listing, Bytes;
    BytesSame(kept.active, kept.sizes, s.sizes);
    BytesSplit(s.active, drop, s.sizes);
  }

  // ------------------------------------------------------------------
  // What every run keeps
  // ------------------------------------------------------------------

  /** Every index is valid, the statistics are the sums over the active segments, and every filter was built for its
      segment. */
  ghost predicate Consistent(h: Bloom.Hash, m: Manager) {
    && (forall i :: i in m.indices ==> Valid(m.indices[i]))
    && m.totalSegments == SumOfMap(Counts(m))
    && m.totalBytes == SumOfMap(Sizes(m))
    && (forall i, id :: i in m.indices && id in m.indices[i].data ==> FilterFits(h, m.indices[i].data[id]))
  }

  lemma {:induction false} FitsAfterAppendAll(h: Bloom.Hash, s: IndexSegs, news: seq<Segment>, sizeOf: SizeOf)
    requires forall id :: id in s.data ==> FilterFits(h, s.data[id])
    requires forall k :: 0 <= k < |news| ==> FilterFits(h, news[k])
    ensures forall id :: id in AppendAll(s, news, sizeOf).data ==> FilterFits(h, AppendAll(s, news, sizeOf).data[id])
  {
    hide FilterFits;
    if news != [] {
      FitsAfterAppendAll(h, s, news[..|news|-1], sizeOf);
    }
  }

  /** Replacing the segments of one index moves the sums by its own difference. */
  lemma {:induction false} SumsAfter(m: Manager, index: string, s': IndexSegs)
    ensures var m' := m.(indices := m.indices[index := s']);
      var s := SegsOf(m, index);
      && SumOfMap(Counts(m')) == SumOfMap(Counts(m)) - |s.active| + |s'.active|
      && SumOfMap(Sizes(m')) == SumOfMap(Sizes(m)) - Bytes(s.active, s.sizes) + Bytes(s'.active, s'.sizes)
  {
    var m' := m.(indices := m.indices[index := s']);
    TotalsAfter(m, index, s');
    hide Bytes, SumOfMap, Counts, Sizes;
    SumOfMapUpdated(Counts(m), index, |s'.active|);
    SumOfMapUpdated(Sizes(m), index, Bytes(s'.active, s'.sizes));
  }

  lemma {:induction false} TotalsAfter(m: Manager, index: string, s': IndexSegs)
    ensures var m', s := m.(indices := m.indices[index := s']), SegsOf(m, index);
      && Counts(m') == Counts(m)[index := |s'.active|]
      && Sizes(m') == Sizes(m)[index := Bytes(s'.active, s'.sizes)]
      && |s.active| == (if index in Counts(m) then Counts(m)[index] else 0)
      && Bytes(s.active, s.sizes) == (if index in Sizes(m) then Sizes(m)[index] else 0)
  {
    assert Bytes(NONE.active, NONE.sizes) == 0;
    hide Bytes;
  }

  lemma {:induction false} ReplacedKeepsConsistent(h: Bloom.Hash, m: Manager, index: string, s': IndexSegs, m': Manager)
    requires Consistent(h, m) && Valid(s') && m'.indices == m.indices[index := s']
    requires forall id :: id in s'.data ==> FilterFits(h, s'.data[id])
    requires var s := SegsOf(m, index);
      && m'.totalSegments == m.totalSegments - |s.active| + |s'.active|
      && m'.totalBytes == m.totalBytes - Bytes(s.active, s.sizes) + Bytes(s'.active, s'.sizes)
    ensures Consistent(h, m')
  {
    SumsAfter(m, index, s');
    hide SumOfMap, FilterFits, Bytes, Valid, Counts, Sizes;
    SumsOfIndices(m.(indices := m.indices[index := s']), m');
  }

  lemma {:induction false} SumsOfIndices(a: Manager, b: Manager)
    requires a.indices == b.indices
    ensures SumOfMap(Counts(a)) == SumOfMap(Counts(b)) && SumOfMap(Sizes(a)) == SumOfMap(Sizes(b))
  {
    assert Counts(a) == Counts(b) && Sizes(a) == Sizes(b);
  }

  lemma {:induction false} OneConsistent(h: Bloom.Hash, m: Manager, index: string)
    requires Consistent(h, m)
    ensures var s := SegsOf(m, index); Valid(s) && forall id :: id in s.data ==> FilterFits(h, s.data[id])
  {
  }

  lemma {:induction false} NewsFit(h: Bloom.Hash, snap: map<string, Terms>, news: seq<Segment>)
    requires IsFlush(h, snap, news)
    ensures forall k :: 0 <= k < |news| ==> FilterFits(h, news[k])
  {
    hide FilterFits;
  }

  lemma {:induction false} FlushKeepsConsistent(h: Bloom.Hash, m: Manager, index: string, snap: map<string, Terms>,
                                                news: seq<Segment>, sizeOf: SizeOf)
    requires Consistent(h, m) && IsFlush(h, snap, news)
    ensures Consistent(h, Flushed(m, index, news, sizeOf))
  {
    var s := SegsOf(m, index);
    OneConsistent(h, m, index);
    NewsFit(h, snap, news);
    hide Consistent, IsFlush, FilterFits, Valid, AppendAll, Bytes, NewBytes, SegsOf;
    AppendAllKeeps(s, news, sizeOf);
    BytesAppended(s, news, sizeOf);
    FitsAfterAppendAll(h, s, news, sizeOf);
    ReplacedKeepsConsistent(h, m, index, AppendAll(s, news, sizeOf), Flushed(m, index, news, sizeOf));
  }

  lemma {:induction false} MergeNewsFit(h: Bloom.Hash, s: IndexSegs, max: nat, drop: seq<nat>, news: seq<Segment>)
    requires Valid(s) && IsMerge(h, s, max, drop, news)
    ensures forall k :: 0 <= k < |news| ==> FilterFits(h, news[k])
    ensures |drop| == |s.active| - max + 1
  {
    hide FilterFits, MergedTerms, Listing;
  }

  lemma {:induction false} FitsAfterMerge(h: Bloom.Hash, s: IndexSegs, drop: seq<nat>, news: seq<Segment>,
                                          sizeOf: SizeOf)
    requires forall id :: id in s.data ==> FilterFits(h, s.data[id])
    requires forall k :: 0 <= k < |news| ==> FilterFits(h, news[k])
    ensures forall id :: id in Merged(s, drop, news, sizeOf).data ==>
              FilterFits(h, Merged(s, drop, news, sizeOf).data[id])
  {
    hide FilterFits, AppendAll;
    FitsAfterAppendAll(h, Without(s, drop), news, sizeOf);
  }

  lemma {:induction false} MergeKeepsConsistent(h: Bloom.Hash, m: Manager, index: string, max: nat, drop: seq<nat>,
                                                news: seq<Segment>, sizeOf: SizeOf)
    requires Consistent(h, m) && Valid(SegsOf(m, index)) && IsMerge(h, SegsOf(m, index), max, drop, news)
    ensures Consistent(h, MergedAll(m, index, drop, news, sizeOf))
  {
    var s := SegsOf(m, index);
    OneConsistent(h, m, index);
    MergeNewsFit(h, s, max, drop, news);
    hide Consistent, IsMerge, FilterFits, Valid, Merged, Bytes, NewBytes, SegsOf, ChosenFields;
    MergeCounts(h, s, max, drop, news, sizeOf);
    BytesMerged(h, s, max, drop, news, sizeOf);
    FitsAfterMerge(h, s, drop, news, sizeOf);
    ReplacedKeepsConsistent(h, m, index, Merged(s, drop, news, sizeOf), MergedAll(m, index, drop, news, sizeOf));
  }

  /** On every run from an empty store. */
  lemma {:induction false} RunsStayConsistent(h: Bloom.Hash, ops: seq<Op>, sizeOf: SizeOf)
    requires IsRun(h, ops, sizeOf)
    ensures Consistent(h, Run(ops, sizeOf))
  {
    if ops != [] {
      var n := |ops| - 1;
      PrefixIsRun(h, ops, n, sizeOf);
      RunsStayConsistent(h, ops[..n], sizeOf);
      var m := Run(ops[..n], sizeOf);
      assert Possible(h, m, ops[n]);
      hide Consistent, IsFlush, IsMerge, Flushed, MergedAll;
      match ops[n]
      case Flush(index, snap, news) => FlushKeepsConsistent(h, m, index, snap, news, sizeOf);
      case Merge(index, max, drop, news) => MergeKeepsConsistent(h, m, index, max, drop, news, sizeOf);
    }
  }

  lemma {:induction false} PrefixIsRun(h: Bloom.Hash, ops: seq<Op>, n: nat, sizeOf: SizeOf)
    requires IsRun(h, ops, sizeOf) && n <= |ops|
    ensures IsRun(h, ops[..n], sizeOf)
  {
    hide Possible;
    forall k | 0 <= k < n ensures Possible(h, Run(ops[..n][..k], sizeOf), ops[..n][k]) {
      assert ops[..n][..k] == ops[..k];
    }
  }

  /** Before its last operation a run was a run, consistent, and the operation was possible. */
  lemma {:induction false} BeforeLast(h: Bloom.Hash, ops: seq<Op>, sizeOf: SizeOf)
    requires IsRun(h, ops, sizeOf) && ops != []
    ensures var n := |ops| - 1;
      && IsRun(h, ops[..n], sizeOf) && Consistent(h, Run(ops[..n], sizeOf))
      && Possible(h, Run(ops[..n], sizeOf), ops[n])
      && Run(ops, sizeOf) == Apply(Run(ops[..n], sizeOf), ops[n], sizeOf)
  {
    var n := |ops| - 1;
    hide Consistent, Possible, Apply;
    assert Possible(h, Run(ops[..n], sizeOf), ops[n]);
    PrefixIsRun(h, ops, n, sizeOf);
    RunsStayConsistent(h, ops[..n], sizeOf);
  }

  /** The documents that flushes of the index have given for a term. */
  function EverFlushed(ops: seq<Op>, index: string, f: string, t: string): set<string> {
    if ops == [] then {}
    else
      var op := ops[|ops|-1];
      EverFlushed(ops[..|ops|-1], index, f, t)
      + (if op.Flush? && op.index == index then IdsOf(TermsAt(op.snap, f), t) else {})
  }

  lemma {:induction false} FoundAfterOp(h: Bloom.Hash, m: Manager, op: Op, sizeOf: SizeOf, index: string, f: string,
                                        t: string)
    requires Consistent(h, m) && Possible(h, m, op)
    ensures Found(SegsOf(Apply(m, op, sizeOf), index), f, t)
         == Found(SegsOf(m, index), f, t)
            + (if op.Flush? && op.index == index then IdsOf(TermsAt(op.snap, f), t) else {})
  {
    OneConsistent(h, m, op.index);
    hide Consistent, IsFlush, IsMerge, Found, AppendAll, Merged, Valid, TermsAt, IdsOf;
    match op
    case Flush(i, snap, news) => FlushAddsSnapshot(h, SegsOf(m, i), snap, news, sizeOf, f, t);
    case Merge(i, max, drop, news) => MergePreservesUnion(h, SegsOf(m, i), max, drop, news, sizeOf, f, t);
  }

  /** On every run the active segments hold, for every term, exactly what flushes gave: merging loses and adds
      nothing. */
  lemma {:induction false} SegmentsHoldAllFlushed(h: Bloom.Hash, ops: seq<Op>, sizeOf: SizeOf, index: string, f: string,
                                                  t: string)
    requires IsRun(h, ops, sizeOf)
    ensures Found(SegsOf(Run(ops, sizeOf), index), f, t) == EverFlushed(ops, index, f, t)
  {
    if ops == [] {
      assert Found(NONE, f, t) == {};
    } else {
      var n := |ops| - 1;
      assert EverFlushed(ops, index, f, t) == EverFlushed(ops[..n], index, f, t)
        + (if ops[n].Flush? && ops[n].index == index then IdsOf(TermsAt(ops[n].snap, f), t) else {});
      hide *;
      BeforeLast(h, ops, sizeOf);
      SegmentsHoldAllFlushed(h, ops[..n], sizeOf, index, f, t);
      FoundAfterOp(h, Run(ops[..n], sizeOf), ops[n], sizeOf, index, f, t);
    }
  }

  predicate Gone(s: IndexSegs, id: nat) { id <= s.counter && id !in s.active }

  lemma {:induction false} GoneStaysGone(h: Bloom.Hash, m: Manager, op: Op, sizeOf: SizeOf, index: string, id: nat)
    requires Consistent(h, m) && Possible(h, m, op) && Gone(SegsOf(m, index), id)
    ensures Gone(SegsOf(Apply(m, op, sizeOf), index), id)
  {
    OneConsistent(h, m, op.index);
    hide Consistent, IsFlush, IsMerge, AppendAll, Merged, Valid, ChosenFields;
    match op
    case Flush(i, snap, news) => AppendAllKeeps(SegsOf(m, i), news, sizeOf);
    case Merge(i, max, drop, news) => MergeCounts(h, SegsOf(m, i), max, drop, news, sizeOf);
  }

  /** An id that was active and no longer is never comes back. */
  lemma {:induction false} IdsAreNeverReused(h: Bloom.Hash, ops: seq<Op>, sizeOf: SizeOf, index: string, i: nat, j: nat,
                                             id: nat)
    requires IsRun(h, ops, sizeOf) && i <= j <= |ops|
    requires id in SegsOf(Run(ops[..i], sizeOf), index).active && id !in SegsOf(Run(ops[..j], sizeOf), index).active
    ensures id !in SegsOf(Run(ops, sizeOf), index).active
  {
    CountersGrow(h, ops, sizeOf, index, i, j);
    PrefixIsRun(h, ops, i, sizeOf);
    RunsStayConsistent(h, ops[..i], sizeOf);
    OneConsistent(h, Run(ops[..i], sizeOf), index);
    hide Consistent, Possible, IsRun, SegsOf, Run;
    StaysGone(h, ops, sizeOf, index, j, id);
  }

  lemma {:induction false} CountersGrow(h: Bloom.Hash, ops: seq<Op>, sizeOf: SizeOf, index: string, i: nat, j: nat)
    requires IsRun(h, ops, sizeOf) && i <= j <= |ops|
    ensures SegsOf(Run(ops[..i], sizeOf), index).counter <= SegsOf(Run(ops[..j], sizeOf), index).counter
    decreases j
  {
    if i < j {
      hide *;
      PrefixIsRun(h, ops, j, sizeOf);
      BeforeLast(h, ops[..j], sizeOf);
      assert ops[..j][..j - 1] == ops[..j - 1];
      CounterGrows(h, Run(ops[..j - 1], sizeOf), ops[j - 1], sizeOf, index);
      CountersGrow(h, ops, sizeOf, index, i, j - 1);
    }
  }

  lemma {:induction false} CounterGrows(h: Bloom.Hash, m: Manager, op: Op, sizeOf: SizeOf, index: string)
    requires Consistent(h, m) && Possible(h, m, op)
    ensures SegsOf(m, index).counter <= SegsOf(Apply(m, op, sizeOf), index).counter
  {
    OneConsistent(h, m, op.index);
    hide Consistent, IsFlush, IsMerge, AppendAll, Merged, Valid, ChosenFields;
    match op
    case Flush(i, snap, news) => AppendAllKeeps(SegsOf(m, i), news, sizeOf);
    case Merge(i, max, drop, news) => MergeCounts(h, SegsOf(m, i), max, drop, news, sizeOf);
  }

  lemma {:induction false} StaysGone(h: Bloom.Hash, ops: seq<Op>, sizeOf: SizeOf, index: string, j: nat, id: nat)
    requires IsRun(h, ops, sizeOf) && j <= |ops| && Gone(SegsOf(Run(ops[..j], sizeOf), index), id)
    ensures Gone(SegsOf(Run(ops, sizeOf), index), id)
    decreases |ops|
  {
    if j == |ops| {
      assert ops[..j] == ops;
    } else {
      hide *;
      var n := |ops| - 1;
      BeforeLast(h, ops, sizeOf);
      assert ops[..n][..j] == ops[..j];
      StaysGone(h, ops[..n], sizeOf, index, j, id);
      GoneStaysGone(h, Run(ops[..n], sizeOf), ops[n], sizeOf, index, id);
    }
  }

  /** A search through faithful filters finds exactly what flushes gave. */
  lemma {:induction false} SearchFindsFlushed(h: Bloom.Hash, ops: seq<Op>, sizeOf: SizeOf, index: string, f: string,
                                              t: string)
    requires IsRun(h, ops, sizeOf)
    requires var s := SegsOf(Run(ops, sizeOf), index);
             forall id :: id in s.data ==> FaithfulCount(|s.data[id].postings|)
    ensures FilteredFound(h, SegsOf(Run(ops, sizeOf), index), f, t) == EverFlushed(ops, index, f, t)
  {
    RunsStayConsistent(h, ops, sizeOf);
    SegmentsHoldAllFlushed(h, ops, sizeOf, index, f, t);
    FilteringIsExact(h, SegsOf(Run(ops, sizeOf), index), f, t);
  }
}
