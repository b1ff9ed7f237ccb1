/** The pool object of pkg/pool/pool.go: node list, health filter, the two balancers. */
module Pool {
  import opened Common
  import opened Collections
  import opened RoundRobin

  /** The members of `s` that belong to `keep`, in order. */
  function Filter<T(==)>(s: seq<T>, keep: set<T>): seq<T> {
    if s == [] then []
    else Filter(s[..|s|-1], keep) + (if s[|s|-1] in keep then [s[|s|-1]] else [])
  }

  lemma {:induction false} FilterMembers<T>(s: seq<T>, keep: set<T>)
    ensures forall x :: x in Filter(s, keep) ==> x in s && x in keep
    ensures forall x :: x in s && x in keep ==> x in Filter(s, keep)
  {
    if s != [] {
      FilterMembers(s[..|s|-1], keep);
      assert s == s[..|s|-1] + [s[|s|-1]];
    }
  }

  lemma {:induction false} FilterConcat<T>(a: seq<T>, b: seq<T>, keep: set<T>)
    ensures Filter(a + b, keep) == Filter(a, keep) + Filter(b, keep)
  {
    if b == [] {
      assert a + b == a && Filter(a, keep) + Filter(b, keep) == Filter(a, keep);
    } else {
      FilterSnoc(b, keep);
      FilterSnoc(a + b, keep);
      var init := b[..|b|-1];
      assert (a + b)[..|a + b|-1] == a + init;
      hide Filter;
      FilterConcat(a, init, keep);
      var x, y, last := Filter(a, keep), Filter(init, keep), if b[|b|-1] in keep then [b[|b|-1]] else [];
      assert x + y + last == x + (y + last);
    }
  }

  lemma {:induction false} FilterSnoc<T>(s: seq<T>, keep: set<T>)
    requires s != []
    ensures Filter(s, keep) == Filter(s[..|s|-1], keep) + (if s[|s|-1] in keep then [s[|s|-1]] else [])
  {
  }

  lemma {:induction false} FilterPrefix<T>(s: seq<T>, n: nat, keep: set<T>)
    requires n <= |s|
    ensures Filter(s[..n], keep) <= Filter(s, keep)
  {
    FilterConcat(s[..n], s[n..], keep);
    assert s == s[..n] + s[n..];
  }

  /** Reading one more element of `s` reads at most one more kept element. */
  lemma {:induction false} FilterNext<T>(s: seq<T>, i: nat, keep: set<T>)
    requires i < |s|
    ensures var m := |Filter(s[..i], keep)|;
            && m <= |Filter(s, keep)| && Filter(s[..i], keep) == Filter(s, keep)[..m]
            && (s[i] !in keep ==> Filter(s[..i+1], keep) == Filter(s[..i], keep))
            && (s[i] in keep ==>
                  |Filter(s[..i+1], keep)| == m + 1 && m < |Filter(s, keep)| && Filter(s, keep)[m] == s[i])
  {
    assert s[..i+1][..i] == s[..i];
    FilterPrefix(s, i, keep);
    FilterPrefix(s, i + 1, keep);
  }

  lemma {:induction false} FilterDistinct<T>(s: seq<T>, keep: set<T>)
    requires NoRepeats(s)
    ensures NoRepeats(Filter(s, keep))
  {
    if s != [] {
      FilterDistinct(s[..|s|-1], keep);
      FilterMembers(s[..|s|-1], keep);
    }
  }

  lemma {:induction false} FilterAll<T>(s: seq<T>, keep: set<T>)
    requires forall x :: x in s ==> x in keep
    ensures Filter(s, keep) == s
  {
    if s != [] {
      FilterAll(s[..|s|-1], keep);
      assert s == s[..|s|-1] + [s[|s|-1]];
    }
  }

  // ------------------------------------------------------------------
  // Plain rotation
  // ------------------------------------------------------------------

  function MoveToEnd<T>(s: seq<T>, i: nat): seq<T>
    requires i < |s|
  {
    s[..i] + s[i+1..] + [s[i]]
  }

  lemma {:induction false} FilterNone<T>(s: seq<T>, keep: set<T>)
    requires forall x :: x in s ==> x !in keep
    ensures Filter(s, keep) == []
  {
    if s != [] {
      FilterNone(s[..|s|-1], keep);
    }
  }

  /** The kept members of a list that starts with kept-out members and then `x`. */
  lemma {:induction false} FilterFirst<T>(a: seq<T>, x: T, b: seq<T>, keep: set<T>)
    requires x in keep && forall y :: y in a ==> y !in keep
    ensures Filter(a, keep) == []
    ensures Filter(a + [x] + b, keep) == [x] + Filter(b, keep)
  {
    FilterNone(a, keep);
    FilterConcat(a + [x], b, keep);
    FilterConcat(a, [x], keep);
    assert Filter([x], keep) == [x];
  }

  /** Moving the first kept member to the end rotates the kept members by one. */
  lemma {:induction false} MoveRotates<T>(s: seq<T>, keep: set<T>, i: nat)
    requires i < |s| && s[i] in keep
    requires forall j :: 0 <= j < i ==> s[j] !in keep
    ensures Filter(s, keep) == [s[i]] + Filter(s[i+1..], keep)
    ensures Filter(MoveToEnd(s, i), keep) == Filter(s[i+1..], keep) + [s[i]]
  {
    var a, x, b := s[..i], s[i], s[i+1..];
    assert s == a + [x] + b;
    FilterFirst(a, x, b, keep);
    FilterMoved(a, x, b, keep);
  }

  lemma {:induction false} FilterMoved<T>(a: seq<T>, x: T, b: seq<T>, keep: set<T>)
    requires x in keep && Filter(a, keep) == []
    ensures Filter(a + b + [x], keep) == Filter(b, keep) + [x]
  {
    FilterConcat(a + b, [x], keep);
    FilterConcat(a, b, keep);
    assert Filter([x], keep) == [x];
  }

  /** The list after n rotations by one. */
  function Rotated<T>(h: seq<T>, n: nat): (r: seq<T>)
    requires h != []
    ensures |r| == |h|
  {
    if n == 0 then h
    else
      var r := Rotated(h, n - 1);
      r[1..] + [r[0]]
  }

  lemma {:induction false} RotatedWithin<T>(h: seq<T>, n: nat)
    requires h != [] && n <= |h|
    ensures Rotated(h, n) == h[n..] + h[..n]
  {
    if n > 0 {
      RotatedWithin(h, n - 1);
    }
  }

  lemma {:induction false} RotatedTwice<T>(h: seq<T>, m: nat, n: nat)
    requires h != []
    ensures Rotated(h, m + n) == Rotated(Rotated(h, m), n)
  {
    if n > 0 {
      RotatedTwice(h, m, n - 1);
    }
  }

  /** Plain rotation is exactly fair: the first |h| requests are served by the healthy nodes in order, one each,
      and then the same order starts again. */
  lemma {:induction false} RotationIsFair<T>(h: seq<T>, n: nat)
    requires h != []
    ensures n < |h| ==> Rotated(h, n)[0] == h[n]
    ensures Rotated(h, |h| + n) == Rotated(h, n)
  {
    RotatedWithin(h, |h|);
    assert Rotated(h, |h|) == h;
    RotatedTwice(h, |h|, n);
    if n < |h| {
      RotatedWithin(h, n);
    }
  }

  // ------------------------------------------------------------------
  // The objects
  // ------------------------------------------------------------------

  class PoolNode {
    const weight: int
    var currentWeight: int
    var healthy: bool
    var client: Option<nat>

    /** A node as NewPool and AddNode make it: a configured weight of 0 or less counts as 1, and a node
        whose client could not be made is not healthy. */
    constructor (configuredWeight: int, client: Option<nat>, pingOk: bool)
      ensures weight == (if configuredWeight <= 0 then 1 else configuredWeight) && currentWeight == weight
      ensures this.client == client && healthy == (client.Some? && pingOk)
    {
      weight := if configuredWeight <= 0 then 1 else configuredWeight;
      currentWeight := if configuredWeight <= 0 then 1 else configuredWeight;
      this.client := client;
      healthy := client.Some? && pingOk;
    }

    predicate Usable()
      reads this`healthy, this`client
    {
      healthy && client.Some?
    }
  }

  ghost function UsableIn(ns: seq<PoolNode>): set<PoolNode>
    reads ns`healthy, ns`client
  {
    set n | n in ns && n.Usable()
  }

  lemma {:induction false} SameUsable(a: seq<PoolNode>, b: seq<PoolNode>)
    requires forall n :: n in a <==> n in b
    ensures UsableIn(a) == UsableIn(b)
  {
  }

  ghost function WeightsOf(ns: seq<PoolNode>): (w: seq<int>)
    ensures |w| == |ns|
  {
    seq(|ns|, i requires 0 <= i < |ns| => ns[i].weight)
  }

  ghost function Currents(ns: seq<PoolNode>): (c: seq<int>)
    reads ns`currentWeight
    ensures |c| == |ns| && forall i :: 0 <= i < |ns| ==> c[i] == ns[i].currentWeight
  {
    if ns == [] then [] else Currents(ns[..|ns|-1]) + [ns[|ns|-1].currentWeight]
  }

  lemma {:induction false} AdvanceIs(w: seq<int>, c: seq<int>, c': seq<int>)
    requires |w| == |c| == |c'| && w != []
    requires forall i :: 0 <= i < |w| ==> c'[i] == Bump(w, c)[i] - (if i == Chosen(w, c) then Sum(w) else 0)
    ensures c' == Advance(w, c)
  {
  }

  datatype LoadBalancer = Weighted | Plain

  class ClientPool {
    var nodes: seq<PoolNode>
    const balancer: LoadBalancer

    constructor (nodes: seq<PoolNode>, balancer: LoadBalancer)
      ensures this.nodes == nodes && this.balancer == balancer
    {
      this.nodes := nodes;
      this.balancer := balancer;
    }

    /** Nodes are distinct objects, and NewPool, AddNode and checkHealth call a node healthy only when it has a
        client. */
    ghost predicate Valid()
      reads this, nodes
    {
      NoRepeats(nodes) && forall n :: n in nodes && n.healthy ==> n.client.Some?
    }

    /** The nodes a request may be sent to, in list order. */
    ghost function HealthyNodes(): seq<PoolNode>
      reads this, nodes
    {
      Filter(nodes, UsableIn(nodes))
    }

    method GetHealthyNodes() returns (healthy: seq<PoolNode>)
      requires Valid()
      ensures healthy == HealthyNodes() && NoRepeats(healthy)
      ensures forall n :: n in healthy ==> n in nodes && n.Usable()
    {
      healthy := [];
      for i := 0 to |nodes|
        invariant healthy == Filter(nodes[..i], UsableIn(nodes))
      {
        assert nodes[..i+1][..i] == nodes[..i];
        if nodes[i].healthy && nodes[i].client.Some? {
          healthy := healthy + [nodes[i]];
        }
      }
      assert nodes[..|nodes|] == nodes;
      FilterDistinct(nodes, UsableIn(nodes));
      FilterMembers(nodes, UsableIn(nodes));
    }

    /** One weighted selection among the usable candidates; with none, the first candidate's client and no change. */
    method SelectWeightedRoundRobin(candidates: seq<PoolNode>) returns (client: Option<nat>)
      requires candidates != [] && NoRepeats(candidates)
      requires forall n :: n in candidates ==> n in nodes
      modifies nodes`currentWeight
      ensures var u := old(Filter(candidates, UsableIn(candidates)));
        if u == [] then
          client == candidates[0].client && forall n :: n in nodes ==> n.currentWeight == old(n.currentWeight)
        else
          && client == u[Chosen(WeightsOf(u), old(Currents(u)))].client
          && Currents(u) == Advance(WeightsOf(u), old(Currents(u)))
          && forall n :: n in nodes && n !in u ==> n.currentWeight == old(n.currentWeight)
    {
      ghost var keep := UsableIn(candidates);
      ghost var u := Filter(candidates, keep);
      FilterDistinct(candidates, keep);
      FilterMembers(candidates, keep);
      ghost var w, c := WeightsOf(u), Currents(u);
      ghost var b := Bump(w, c);
      var totalWeight, maxNode := BumpAll(candidates, u, w, c, b);
      if maxNode == null {
        return candidates[0].client;
      }
      hide Filter, UsableIn;
      maxNode.currentWeight := maxNode.currentWeight - totalWeight;
      client := maxNode.client;
      AdvanceIs(w, c, Currents(u));
    }

    /** The loop: every usable candidate gains its weight, and the first of the largest is remembered. */
    method BumpAll(candidates: seq<PoolNode>, ghost u: seq<PoolNode>, ghost w: seq<int>, ghost c: seq<int>,
                   ghost b: seq<int>)
      returns (totalWeight: int, maxNode: PoolNode?)
      requires u == Filter(candidates, UsableIn(candidates)) && NoRepeats(u) && |w| == |c| == |b| == |u|
      requires forall n :: n in candidates ==> n in nodes
      requires forall n :: n in u ==> n in candidates
      requires forall k :: 0 <= k < |u| ==>
        (c[k] == u[k].currentWeight && w[k] == u[k].weight && b[k] == c[k] + w[k])
      modifies nodes`currentWeight
      ensures u == [] ==> maxNode == null
      ensures u != [] ==> totalWeight == RoundRobin.Sum(w) && maxNode == u[ArgMaxTo(b, |b|)] && maxNode in nodes
      ensures forall k :: 0 <= k < |u| ==> u[k].currentWeight == b[k]
      ensures forall n :: n in nodes && n !in u ==> n.currentWeight == old(n.currentWeight)
    {
      hide Filter, UsableIn, NoRepeats;
      ghost var keep, m := UsableIn(candidates), 0;
      FilterNothing(candidates, keep);
      DistinctAt(u);
      var maxWeight := 0;
      totalWeight, maxNode := 0, null;
      for i := 0 to |candidates|
        invariant m == |Filter(candidates[..i], keep)| <= |u|
        invariant totalWeight == SumTo(w, m)
        invariant forall k :: 0 <= k < m ==> u[k].currentWeight == b[k]
        invariant forall k :: m <= k < |u| ==> u[k].currentWeight == c[k]
        invariant forall n :: n in nodes && n !in u ==> n.currentWeight == old(n.currentWeight)
        invariant m == 0 ==> maxNode == null
        invariant m > 0 ==> maxNode == u[ArgMaxTo(b, m)] && maxWeight == b[ArgMaxTo(b, m)]
      {
        var node := candidates[i];
        FilterNext(candidates, i, keep);
        InUsable(candidates, i);
        if !node.healthy || node.client.None? {
          continue;
        }
        totalWeight := totalWeight + node.weight;
        node.currentWeight := node.currentWeight + node.weight;
        if maxNode == null || node.currentWeight > maxWeight {
          maxWeight := node.currentWeight;
          maxNode := node;
        }
        m := m + 1;
      }
      assert candidates[..|candidates|] == candidates;
      assert maxNode != null ==> u[ArgMaxTo(b, m)] in u;
    }

    method MoveFirstToEnd()
      requires Valid()
      modifies this`nodes
      ensures Valid() && multiset(nodes) == multiset(old(nodes))
      ensures old(HealthyNodes()) == [] ==> nodes == old(nodes)
      ensures old(HealthyNodes()) != [] ==> HealthyNodes() == Rotated(old(HealthyNodes()), 1)
    {
      hide Filter, Rotated, MoveToEnd, UsableIn, NoRepeats;
      if |nodes| <= 1 {
        ShortRotation(nodes, UsableIn(nodes));
        return;
      }
      var i := FirstHealthy();
      if i == |nodes| {
        NoneUsable(nodes);
        return;
      }
      MoveUsable(nodes, i);
      nodes := MoveToEnd(nodes, i);
    }

    /** The index of the first healthy node, or the length. */
    method FirstHealthy() returns (i: nat)
      ensures i <= |nodes| && (i < |nodes| ==> nodes[i].healthy)
      ensures forall j :: 0 <= j < i ==> !nodes[j].healthy
    {
      i := 0;
      while i < |nodes| && !nodes[i].healthy
        invariant i <= |nodes| && forall j :: 0 <= j < i ==> !nodes[j].healthy
      {
        i := i + 1;
      }
    }

    /** One request. With no healthy node it fails and changes nothing; otherwise the balancer picks. */
    method Get() returns (client: Option<nat>)
      requires Valid()
      modifies this`nodes, nodes`currentWeight
      ensures Valid() && multiset(nodes) == multiset(old(nodes))
      ensures var h := old(HealthyNodes());
              if h == [] then client == None && nodes == old(nodes)
              else if balancer == Weighted then
                && nodes == old(nodes) && HealthyNodes() == h
                && client == h[Chosen(WeightsOf(h), old(Currents(h)))].client
                && Currents(h) == Advance(WeightsOf(h), old(Currents(h)))
                && (forall n :: n in nodes && n !in h ==> n.currentWeight == old(n.currentWeight))
              else
                && client == h[0].client
                && HealthyNodes() == Rotated(h, 1)
                && forall n :: n in old(nodes) ==> n.currentWeight == old(n.currentWeight)
    {
      hide Chosen, Advance, Filter;
      var healthy := GetHealthyNodes();
      if |healthy| == 0 {
        return None;
      }
      if balancer == Weighted {
        AllUsable(healthy);
        assert Currents(healthy) == old(Currents(healthy));
        client := SelectWeightedRoundRobin(healthy);
        assert UsableIn(nodes) == old(UsableIn(nodes));
        return;
      }
      client := healthy[0].client;
      MoveFirstToEnd();
    }
  }

  lemma {:induction false} FilterNothing<T>(s: seq<T>, keep: set<T>)
    ensures Filter(s[..0], keep) == []
  {
  }

  lemma {:induction false} DistinctAt<T>(s: seq<T>)
    requires NoRepeats(s)
    ensures forall i, j :: 0 <= i < |s| && 0 <= j < |s| && i != j ==> s[i] != s[j]
  {
  }

  lemma {:induction false} InUsable(ns: seq<PoolNode>, i: nat)
    requires i < |ns|
    ensures ns[i] in ns && (ns[i] in UsableIn(ns) <==> ns[i].Usable())
  {
  }

  lemma {:induction false} AllUsable(ns: seq<PoolNode>)
    requires forall n :: n in ns ==> n.Usable()
    ensures Filter(ns, UsableIn(ns)) == ns
  {
    FilterAll(ns, UsableIn(ns));
  }

  lemma {:induction false} NoneUsable(ns: seq<PoolNode>)
    requires forall j :: 0 <= j < |ns| ==> !ns[j].healthy
    ensures Filter(ns, UsableIn(ns)) == []
  {
    FilterNone(ns, UsableIn(ns));
  }

  lemma {:induction false} MoveUsable(ns: seq<PoolNode>, i: nat)
    requires i < |ns| && NoRepeats(ns) && ns[i].Usable() && forall j :: 0 <= j < i ==> !ns[j].healthy
    ensures var t, h := MoveToEnd(ns, i), Filter(ns, UsableIn(ns));
      && multiset(t) == multiset(ns) && NoRepeats(t) && (forall n :: n in t ==> n in ns)
      && h != [] && Filter(t, UsableIn(t)) == Rotated(h, 1)
  {
    MoveFirstEffect(ns, UsableIn(ns), i);
    SameUsable(ns, MoveToEnd(ns, i));
  }

  lemma {:induction false} ShortRotation<T>(s: seq<T>, keep: set<T>)
    requires |s| <= 1
    ensures Filter(s, keep) != [] ==> Filter(s, keep) == Rotated(Filter(s, keep), 1)
  {
    if Filter(s, keep) != [] {
      assert Filter(s[..0], keep) == [];
      RotatedOnce(Filter(s, keep));
    }
  }

  lemma {:induction false} RotatedOnce<T>(h: seq<T>)
    requires h != []
    ensures Rotated(h, 1) == h[1..] + [h[0]]
  {
    assert Rotated(h, 0) == h;
  }

  /** Moving the first kept member keeps the list's members and rotates the kept ones. */
  lemma {:induction false} MoveFirstEffect<T>(s: seq<T>, keep: set<T>, i: nat)
    requires i < |s| && s[i] in keep && NoRepeats(s)
    requires forall j :: 0 <= j < i ==> s[j] !in keep
    ensures var t := MoveToEnd(s, i);
            && multiset(t) == multiset(s) && NoRepeats(t)
            && (forall x :: x in s ==> x in t) && (forall x :: x in t ==> x in s)
            && Filter(s, keep) != [] && Filter(t, keep) == Rotated(Filter(s, keep), 1)
  {
    MoveRotates(s, keep, i);
    RotatedOnce(Filter(s, keep));
    MoveKeepsMembers(s, i);
    MoveKeepsMultiset(s, i);
    hide Filter, Rotated, MoveToEnd, NoRepeats;
    var rest := Filter(s[i+1..], keep);
    assert ([s[i]] + rest)[1..] == rest;
  }

  lemma {:induction false} MoveKeepsMultiset<T>(s: seq<T>, i: nat)
    requires i < |s|
    ensures multiset(MoveToEnd(s, i)) == multiset(s)
  {
    assert s == s[..i] + [s[i]] + s[i+1..];
  }

  lemma {:induction false} MoveKeepsMembers<T>(s: seq<T>, i: nat)
    requires i < |s|
    ensures forall x :: x in s ==> x in MoveToEnd(s, i)
    ensures forall x :: x in MoveToEnd(s, i) ==> x in s
    ensures NoRepeats(s) ==> NoRepeats(MoveToEnd(s, i))
  {
    var t := MoveToEnd(s, i);
    assert forall k :: 0 <= k < |s| ==> t[k] == s[if k < i then k else if k < |s| - 1 then k + 1 else i];
    assert s == s[..i] + [s[i]] + s[i+1..];
  }
}
