/** Listings of sets, the keys of maps, sums over maps. */
module Collections {

  predicate NoRepeats<T(==)>(xs: seq<T>) { forall i, j :: 0 <= i < j < |xs| ==> xs[i] != xs[j] }

  /** The members of s, each once, in some order. */
  ghost predicate Listing<T(!new)>(xs: seq<T>, s: set<T>) { NoRepeats(xs) && forall x :: x in xs <==> x in s }

  lemma {:induction false} ListedIsMember<T(!new)>(xs: seq<T>, s: set<T>, i: nat)
    requires Listing(xs, s) && i < |xs|
    ensures xs[i] in s
  {
  }

  lemma {:induction false} ListingSize<T(!new)>(xs: seq<T>, s: set<T>)
    requires Listing(xs, s)
    ensures |xs| == |s|
  {
    if xs == [] {
      assert s == {};
    } else {
      var n := |xs| - 1;
      assert xs == xs[..n] + [xs[n]];
      ListingSize(xs[..n], s - {xs[n]});
    }
  }

  lemma {:induction false} SubsetSize<T>(a: set<T>, b: set<T>)
    requires a <= b
    ensures |a| <= |b|
  {
    if a != {} {
      var x :| x in a;
      SubsetSize(a - {x}, b - {x});
    }
  }

  /** The keys of a map in the order a loop over it happens to take. */
  method KeysOf<T>(m: map<string, T>) returns (order: seq<string>)
    ensures Listing(order, m.Keys)
  {
    order := [];
    var todo := m.Keys;
    while todo != {}
      invariant todo <= m.Keys && Listing(order, m.Keys - todo)
      decreases todo
    {
      var k :| k in todo;
      order := order + [k];
      todo := todo - {k};
    }
    assert m.Keys - {} == m.Keys;
  }

  ghost function SumOfMap(m: map<string, nat>): nat {
    if m == map[] then 0 else var k :| k in m; m[k] + SumOfMap(m - {k})
  }

  lemma {:induction false} SumOfMapWithout(m: map<string, nat>, k: string)
    requires k in m
    ensures SumOfMap(m) == m[k] + SumOfMap(m - {k})
    decreases |m|
  {
    var j :| j in m && SumOfMap(m) == m[j] + SumOfMap(m - {j});
    if j != k {
      SumOfMapWithout(m - {j}, k);
      SumOfMapWithout(m - {k}, j);
      assert m - {j} - {k} == m - {k} - {j};
    }
  }

  lemma {:induction false} SumOfMapUpdated(m: map<string, nat>, k: string, v: nat)
    ensures SumOfMap(m[k := v]) == SumOfMap(m) - (if k in m then m[k] else 0) + v
  {
    var m' := m[k := v];
    SumOfMapWithout(m', k);
    if k in m {
      SumOfMapWithout(m, k);
      assert m' - {k} == m - {k};
    } else {
      assert m' - {k} == m;
    }
  }
}
