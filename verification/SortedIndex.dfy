/** The sorted range index (internal/search/sorted_index.go). */
module SortedIndex {
  import opened Common
  import opened Text

  datatype Entry = Entry(value: string, id: string)

  /** By value, then by document id. */
  predicate Before(a: Entry, b: Entry) {
    Less(a.value, b.value) || (a.value == b.value && Less(a.id, b.id))
  }

  lemma {:induction false} BeforeIsOrder(a: Entry, b: Entry, c: Entry)
    ensures !Before(a, a)
    ensures Before(a, b) || a == b || Before(b, a)
    ensures Before(a, b) ==> !Before(b, a)
    ensures Before(a, b) && Before(b, c) ==> Before(a, c)
  {
    LessIrreflexive(a.value);
    LessIrreflexive(a.id);
    LessTotal(a.value, b.value);
    LessTotal(a.id, b.id);
    if Less(a.value, b.value) { LessAsymmetric(a.value, b.value); }
    if Less(a.id, b.id) { LessAsymmetric(a.id, b.id); }
    if Less(a.value, b.value) && Less(b.value, c.value) { LessTransitive(a.value, b.value, c.value); }
    if Less(a.id, b.id) && Less(b.id, c.id) { LessTransitive(a.id, b.id, c.id); }
  }

  /** Strictly ascending, so without duplicates. */
  predicate Sorted(es: seq<Entry>) {
    forall i, j :: 0 <= i < j < |es| ==> Before(es[i], es[j])
  }

  // ------------------------------------------------------------------
  // What the operations compute
  // ------------------------------------------------------------------

  function Upserted(es: seq<Entry>, e: Entry): seq<Entry> {
    if es == [] then [e]
    else if es[0] == e then es
    else if Before(es[0], e) then [es[0]] + Upserted(es[1..], e)
    else [e] + es
  }

  function Without(es: seq<Entry>, id: string): seq<Entry> {
    if es == [] then []
    else (if es[0].id == id then [] else [es[0]]) + Without(es[1..], id)
  }

  lemma {:induction false} UpsertedMembers(es: seq<Entry>, e: Entry, x: Entry)
    ensures x in Upserted(es, e) <==> x in es || x == e
  {
    if es != [] && es[0] != e && Before(es[0], e) {
      UpsertedMembers(es[1..], e, x);
      assert es == [es[0]] + es[1..];
    }
  }

  lemma {:induction false} WithoutMembers(es: seq<Entry>, id: string, x: Entry)
    ensures x in Without(es, id) <==> x in es && x.id != id
  {
    if es != [] {
      WithoutMembers(es[1..], id, x);
      assert es == [es[0]] + es[1..];
    }
  }

  lemma {:induction false} ConsSorted(e: Entry, es: seq<Entry>)
    requires Sorted(es) && forall x :: x in es ==> Before(e, x)
    ensures Sorted([e] + es)
  {
  }

  /** Upsert keeps the order, without duplicates. */
  lemma {:induction false} UpsertedSorted(es: seq<Entry>, e: Entry)
    requires Sorted(es)
    ensures Sorted(Upserted(es, e))
  {
    if es != [] && es[0] != e {
      if Before(es[0], e) {
        UpsertedSorted(es[1..], e);
        forall x | x in Upserted(es[1..], e) ensures Before(es[0], x) {
          UpsertedMembers(es[1..], e, x);
        }
        ConsSorted(es[0], Upserted(es[1..], e));
      } else {
        forall x | x in es ensures Before(e, x) {
          BeforeIsOrder(e, es[0], x);
          BeforeIsOrder(es[0], e, x);
        }
        ConsSorted(e, es);
      }
    }
  }

  /** Removal keeps the order. */
  lemma {:induction false} WithoutSorted(es: seq<Entry>, id: string)
    requires Sorted(es)
    ensures Sorted(Without(es, id))
  {
    if es != [] {
      WithoutSorted(es[1..], id);
      if es[0].id != id {
        forall x | x in Without(es[1..], id) ensures Before(es[0], x) {
          WithoutMembers(es[1..], id, x);
        }
        ConsSorted(es[0], Without(es[1..], id));
      }
    }
  }

  /** Sorted lists with the same members are the same list. */
  lemma {:induction false} SortedUnique(es: seq<Entry>, fs: seq<Entry>)
    requires Sorted(es) && Sorted(fs) && forall x :: x in es <==> x in fs
    ensures es == fs
  {
    if es == [] {
      EmptyOrMember(fs);
    } else {
      assert es[0] in fs && fs != [] && fs[0] in es;
      BeforeIsOrder(es[0], fs[0], es[0]);
      assert es[0] == fs[0];
      forall x ensures x in es[1..] <==> x in fs[1..] {
        assert x in es <==> x in fs;
        BeforeIsOrder(x, x, x);
        if x in es[1..] {
          var k :| 1 <= k < |es| && es[k] == x;
          assert Before(es[0], es[k]);
          assert x in fs && x != fs[0];
        }
        if x in fs[1..] {
          var k :| 1 <= k < |fs| && fs[k] == x;
          assert Before(fs[0], fs[k]);
          assert x in es && x != es[0];
        }
      }
      SortedUnique(es[1..], fs[1..]);
    }
  }

  /** Removing a document undoes its insertion when it had no entry before. */
  lemma {:induction false} WithoutUndoesUpserted(es: seq<Entry>, e: Entry)
    requires Sorted(es) && forall x :: x in es ==> x.id != e.id
    ensures Without(Upserted(es, e), e.id) == es
  {
    var us := Upserted(es, e);
    UpsertedSorted(es, e);
    WithoutSorted(us, e.id);
    forall x ensures x in Without(us, e.id) <==> x in es {
      WithoutMembers(us, e.id, x);
      UpsertedMembers(es, e, x);
    }
    SortedUnique(Without(us, e.id), es);
  }

  // ------------------------------------------------------------------
  // Bounds
  // ------------------------------------------------------------------

  datatype Bounds = Bounds(gte: Option<string>, lte: Option<string>, gt: Option<string>, lt: Option<string>)

  /** The lower bound in force: gt overrides gte. */
  predicate AboveLow(b: Bounds, v: string) {
    if b.gt.Some? then Less(b.gt.value, v) else b.gte.Some? ==> AtMost(b.gte.value, v)
  }

  /** The upper bound in force: lt overrides lte. */
  predicate BelowHigh(b: Bounds, v: string) {
    if b.lt.Some? then Less(v, b.lt.value) else b.lte.Some? ==> AtMost(v, b.lte.value)
  }

  /** A linear filter would test every bound that is given. */
  predicate MeetsAllLow(b: Bounds, v: string) {
    (b.gt.Some? ==> Less(b.gt.value, v)) && (b.gte.Some? ==> AtMost(b.gte.value, v))
  }

  predicate MeetsAllHigh(b: Bounds, v: string) {
    (b.lt.Some? ==> Less(v, b.lt.value)) && (b.lte.Some? ==> AtMost(v, b.lte.value))
  }

  lemma {:induction false} NextString(s: string, v: string)
    ensures Less(s, s + "\0")
    ensures Less(s, v) ==> AtMost(s + "\0", v)
  {
    if s == "" {
      assert !Less(v, "\0") || v == "";
    } else {
      if v != "" {
        NextString(s[1..], v[1..]);
      } else {
        NextString(s[1..], v);
      }
      assert (s + "\0")[1..] == s[1..] + "\0";
    }
  }

  /** With both gte and gt the query agrees with a linear filter for every value if and only if gte is at most the
      immediate successor of gt. */
  lemma {:induction false} LowBoundsAgreeExactlyWhen(b: Bounds)
    ensures (forall v :: AboveLow(b, v) == MeetsAllLow(b, v))
       <==> (b.gt.Some? && b.gte.Some? ==> AtMost(b.gte.value, b.gt.value + "\0"))
  {
    if b.gt.Some? && b.gte.Some? {
      var next := b.gt.value + "\0";
      NextString(b.gt.value, next);
      if AtMost(b.gte.value, next) {
        forall v ensures AboveLow(b, v) == MeetsAllLow(b, v) {
          NextString(b.gt.value, v);
          LessAtMost(b.gte.value, next, v);
        }
      } else {
        assert AboveLow(b, next) != MeetsAllLow(b, next);
      }
    }
  }

  /** With both lte and lt the query agrees with a linear filter for every value if and only if lt is at most the
      immediate successor of lte. */
  lemma {:induction false} HighBoundsAgreeExactlyWhen(b: Bounds)
    ensures (forall v :: BelowHigh(b, v) == MeetsAllHigh(b, v))
       <==> (b.lt.Some? && b.lte.Some? ==> AtMost(b.lt.value, b.lte.value + "\0"))
  {
    if b.lt.Some? && b.lte.Some? {
      var next := b.lte.value + "\0";
      NextString(b.lte.value, next);
      if AtMost(b.lt.value, next) {
        forall v ensures BelowHigh(b, v) == MeetsAllHigh(b, v) {
          NextString(b.lte.value, v);
          LessAtMost(v, b.lt.value, next);
        }
      } else {
        assert BelowHigh(b, next) != MeetsAllHigh(b, next);
      }
    }
  }

  // ------------------------------------------------------------------
  // The object
  // ------------------------------------------------------------------

  /** sort.Search: the first index of 0..n where f holds, for an f that never turns false again. */
  method Search(n: nat, f: int --> bool) returns (r: nat)
    requires forall i :: 0 <= i < n ==> f.requires(i)
    requires forall i, j :: 0 <= i < j < n && f(i) ==> f(j)
    ensures r <= n
    ensures forall i :: 0 <= i < r ==> !f(i)
    ensures forall i :: r <= i < n ==> f(i)
  {
    var lo, hi := 0, n;
    while lo < hi
      invariant 0 <= lo <= hi <= n
      invariant forall i :: 0 <= i < lo ==> !f(i)
      invariant forall i :: hi <= i < n ==> f(i)
    {
      var mid := (lo + hi) / 2;
      if !f(mid) {
        lo := mid + 1;
      } else {
        hi := mid;
      }
    }
    r := lo;
  }

  /** Entries before e are passed over. */
  lemma {:induction false} UpsertedAfter(a: seq<Entry>, b: seq<Entry>, e: Entry)
    requires forall x :: x in a ==> Before(x, e)
    ensures Upserted(a + b, e) == a + Upserted(b, e)
  {
    if a == [] {
      assert a + b == b && a + Upserted(b, e) == Upserted(b, e);
    } else {
      BeforeIsOrder(a[0], e, e);
      UpsertedAfter(a[1..], b, e);
      assert (a + b)[1..] == a[1..] + b;
      hide Upserted;
      assert a == [a[0]] + a[1..];
      assert [a[0]] + (a[1..] + Upserted(b, e)) == a + Upserted(b, e);
    }
  }

  lemma {:induction false} UpsertedHere(b: seq<Entry>, e: Entry)
    requires b != [] ==> b[0] == e || Before(e, b[0])
    ensures Upserted(b, e) == if b != [] && b[0] == e then b else [e] + b
  {
    if b != [] {
      BeforeIsOrder(e, b[0], e);
    }
  }

  lemma {:induction false} WithoutConcat(a: seq<Entry>, b: seq<Entry>, id: string)
    ensures Without(a + b, id) == Without(a, id) + Without(b, id)
  {
    if a == [] {
      assert a + b == b && Without(a, id) + Without(b, id) == Without(b, id);
    } else {
      var head := if a[0].id == id then [] else [a[0]];
      WithoutCons(a, id);
      WithoutCons(a + b, id);
      hide Without;
      WithoutConcat(a[1..], b, id);
      assert (a + b)[1..] == a[1..] + b;
      var x, y := Without(a[1..], id), Without(b, id);
      assert head + (x + y) == head + x + y;
    }
  }

  lemma {:induction false} WithoutCons(es: seq<Entry>, id: string)
    requires es != []
    ensures Without(es, id) == (if es[0].id == id then [] else [es[0]]) + Without(es[1..], id)
  {
  }

  class Index {
    var entries: seq<Entry>

    constructor ()
      ensures entries == []
    {
      entries := [];
    }

    method Upsert(value: string, id: string)
      requires Sorted(entries)
      modifies this
      ensures entries == Upserted(old(entries), Entry(value, id)) && Sorted(entries)
    {
      hide Upserted, Before;
      var e := Entry(value, id);
      UpsertedSorted(entries, e);
      var i := FirstNotBefore(entries, e);
      if i < |entries| {
        BeforeIsOrder(entries[i], e, e);
      }
      assert entries == entries[..i] + entries[i..];
      UpsertedAfter(entries[..i], entries[i..], e);
      UpsertedHere(entries[i..], e);
      if i < |entries| && entries[i] == e {
        return;
      }
      assert entries[..i] + ([e] + entries[i..]) == entries[..i] + [e] + entries[i..];
      entries := entries[..i] + [e] + entries[i..];
    }

    method RemoveDoc(id: string)
      requires Sorted(entries)
      modifies this
      ensures entries == Without(old(entries), id) && Sorted(entries)
    {
      hide *;
      WithoutSorted(entries, id);
      var i := 0;
      ghost var kept, left := [], entries;
      while i < |entries|
        invariant i == |kept| && entries == kept + left
        invariant Without(old(entries), id) == kept + Without(left, id)
        decreases |left|
      {
        WithoutStep(left, id);
        StepOver(kept, left, Without(left[1..], id));
        if entries[i].id == id {
          entries := entries[..i] + entries[i+1..];
        } else {
          kept := kept + [left[0]];
          i := i + 1;
        }
        left := left[1..];
      }
      WithoutNone(left, id);
      assert left == [] && kept + [] == kept;
    }

    /** The first entry above the lower bound in force: gt is looked at last. */
    method LowIndex(b: Bounds) returns (lo: nat)
      requires Sorted(entries)
      ensures lo <= |entries| && forall i :: 0 <= i < |entries| ==> (lo <= i <==> AboveLow(b, entries[i].value))
    {
      hide Less, AtMost, Sorted;
      lo := 0;
      if b.gte.Some? {
        lo := FirstAtLeast(entries, b.gte.value);
      }
      if b.gt.Some? {
        lo := FirstAbove(entries, b.gt.value);
      }
    }

    /** The first entry behind the upper bound in force: lt is looked at last. */
    method HighIndex(b: Bounds) returns (hi: nat)
      requires Sorted(entries)
      ensures hi <= |entries| && forall i :: 0 <= i < |entries| ==> (i < hi <==> BelowHigh(b, entries[i].value))
    {
      hide Less, AtMost, Sorted;
      hi := |entries|;
      if b.lte.Some? {
        hi := FirstAbove(entries, b.lte.value);
        NotAbove(entries, hi, b.lte.value);
      }
      if b.lt.Some? {
        hi := FirstAtLeast(entries, b.lt.value);
        NotAtLeast(entries, hi, b.lt.value);
      }
    }

    /** The ids with an entry between the bounds in force, found by binary search. */
    method RangeQuery(b: Bounds) returns (ids: set<string>)
      requires Sorted(entries)
      ensures ids == set e | e in entries && AboveLow(b, e.value) && BelowHigh(b, e.value) :: e.id
    {
      var lo := LowIndex(b);
      var hi := HighIndex(b);
      hide AboveLow, BelowHigh;
      ids := IdsBetween(entries, lo, hi);
      IdsWithin(entries, lo, hi, b);
    }
  }

  /** The ids of the entries lo..hi; none when hi does not exceed lo. */
  method IdsBetween(es: seq<Entry>, lo: nat, hi: nat) returns (ids: set<string>)
    requires lo <= |es| && hi <= |es|
    ensures ids == set k | 0 <= k < |es| && lo <= k && k < hi :: es[k].id
  {
    ids := {};
    var i := lo;
    while i < hi
      invariant lo <= i && (i <= hi || i == lo)
      invariant ids == set k | 0 <= k < |es| && lo <= k && k < i :: es[k].id
    {
      ids := ids + {es[i].id};
      i := i + 1;
    }
  }

  lemma {:induction false} WithoutStep(es: seq<Entry>, id: string)
    requires es != []
    ensures es[0].id == id ==> Without(es, id) == Without(es[1..], id)
    ensures es[0].id != id ==> Without(es, id) == [es[0]] + Without(es[1..], id)
  {
  }

  lemma {:induction false} WithoutNone(es: seq<Entry>, id: string)
    requires es == []
    ensures Without(es, id) == []
  {
  }

  lemma {:induction false} StepOver<T>(kept: seq<T>, left: seq<T>, more: seq<T>)
    requires left != []
    ensures var s, i := kept + left, |kept|;
            && s[i] == left[0] && s[..i] + s[i+1..] == kept + left[1..] && s == kept + [left[0]] + left[1..]
    ensures kept + ([left[0]] + more) == kept + [left[0]] + more
  {
  }

  method FirstNotBefore(es: seq<Entry>, e: Entry) returns (r: nat)
    requires Sorted(es)
    ensures r <= |es|
    ensures forall x :: x in es[..r] ==> Before(x, e)
    ensures forall i :: r <= i < |es| ==> !Before(es[i], e)
  {
    var f := (j: int) requires 0 <= j < |es| => !Before(es[j], e);
    forall i, j | 0 <= i < j < |es| && f(i) ensures f(j) {
      BeforeIsOrder(es[i], es[j], e);
    }
    r := Search(|es|, f);
    assert forall i :: 0 <= i < r ==> !f(i);
    forall i | r <= i < |es| ensures !Before(es[i], e) {
      assert f(i);
    }
    forall x | x in es[..r] ensures Before(x, e) {
      var i :| 0 <= i < r && es[i] == x;
      assert !f(i);
    }
  }

  method FirstAtLeast(es: seq<Entry>, v: string) returns (r: nat)
    requires Sorted(es)
    ensures r <= |es|
    ensures forall i :: 0 <= i < |es| ==> (r <= i <==> AtMost(v, es[i].value))
  {
    AtLeastMonotone(es);
    var f := (i: int) requires 0 <= i < |es| => AtMost(v, es[i].value);
    r := Search(|es|, f);
    forall i | 0 <= i < |es| ensures r <= i <==> AtMost(v, es[i].value) {
      assert f(i) == AtMost(v, es[i].value);
    }
  }

  method FirstAbove(es: seq<Entry>, v: string) returns (r: nat)
    requires Sorted(es)
    ensures r <= |es|
    ensures forall i :: 0 <= i < |es| ==> (r <= i <==> Less(v, es[i].value))
  {
    AtLeastMonotone(es);
    var f := (i: int) requires 0 <= i < |es| => Less(v, es[i].value);
    r := Search(|es|, f);
    forall i | 0 <= i < |es| ensures r <= i <==> Less(v, es[i].value) {
      assert f(i) == Less(v, es[i].value);
    }
  }

  lemma {:induction false} IdsWithin(es: seq<Entry>, lo: nat, hi: nat, b: Bounds)
    requires forall i :: 0 <= i < |es| ==>
               (lo <= i <==> AboveLow(b, es[i].value)) && (i < hi <==> BelowHigh(b, es[i].value))
    ensures (set k | 0 <= k < |es| && lo <= k && k < hi :: es[k].id)
         == (set e | e in es && AboveLow(b, e.value) && BelowHigh(b, e.value) :: e.id)
  {
    hide AboveLow, BelowHigh;
    var byIndex := set k | 0 <= k < |es| && lo <= k && k < hi :: es[k].id;
    forall e | e in es && AboveLow(b, e.value) && BelowHigh(b, e.value) ensures e.id in byIndex {
      var k :| 0 <= k < |es| && es[k] == e;
    }
  }

  /** The entries in front of the first one above v are at most v. */
  lemma {:induction false} NotAbove(es: seq<Entry>, r: nat, v: string)
    requires forall i :: 0 <= i < |es| ==> (r <= i <==> Less(v, es[i].value))
    ensures forall i :: 0 <= i < |es| ==> (i < r <==> AtMost(es[i].value, v))
  {
  }

  lemma {:induction false} NotAtLeast(es: seq<Entry>, r: nat, v: string)
    requires forall i :: 0 <= i < |es| ==> (r <= i <==> AtMost(v, es[i].value))
    ensures forall i :: 0 <= i < |es| ==> (i < r <==> Less(es[i].value, v))
  {
  }

  /** In a sorted list, being above a bound never turns false again. */
  lemma {:induction false} AtLeastMonotone(es: seq<Entry>)
    requires Sorted(es)
    ensures forall v, i, j :: 0 <= i < j < |es| && AtMost(v, es[i].value) ==> AtMost(v, es[j].value)
    ensures forall v, i, j :: 0 <= i < j < |es| && Less(v, es[i].value) ==> Less(v, es[j].value)
  {
    forall v, i, j | 0 <= i < j < |es|
      ensures AtMost(v, es[i].value) ==> AtMost(v, es[j].value)
      ensures Less(v, es[i].value) ==> Less(v, es[j].value)
    {
      assert Before(es[i], es[j]);
      LessIrreflexive(es[i].value);
      if Less(es[i].value, es[j].value) { LessAsymmetric(es[i].value, es[j].value); }
      LessAtMost(v, es[i].value, es[j].value);
    }
  }
}
