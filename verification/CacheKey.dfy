/** The key of a cached search (pkg/cache/lru.go): the sorted index names and the request body, hashed. */
module CacheKey {
  import opened Common
  import opened Text

  predicate SortedNames(s: seq<string>) { forall i, j :: 0 <= i < j < |s| ==> AtMost(s[i], s[j]) }

  /** What the hash is taken of. */
  function KeyText(names: seq<string>, body: string): string { Join(names, "|") + "#" + body }

  // ------------------------------------------------------------------
  // Sorting
  // ------------------------------------------------------------------

  lemma {:induction false} SwapKeepsMultiset<T>(s: seq<T>, i: nat, j: nat)
    requires i < |s| && j < |s|
    ensures multiset(s[i := s[j]][j := s[i]]) == multiset(s)
  {
  }

  predicate LeastFrom(s: seq<string>, i: nat, n: nat)
    requires i < n <= |s|
  {
    forall k :: i <= k < n ==> AtMost(s[i], s[k])
  }

  /** t has the same names as s, and the first i stand where they stood. */
  predicate RearrangedFrom(s: seq<string>, t: seq<string>, i: nat)
    requires i <= |s| == |t|
  {
    s[..i] == t[..i] && multiset(s[i..]) == multiset(t[i..])
  }

  lemma {:induction false} RearrangedAll(s: seq<string>, t: seq<string>, i: nat)
    requires i <= |s| == |t| && RearrangedFrom(s, t, i)
    ensures multiset(s) == multiset(t)
  {
    assert s == s[..i] + s[i..] && t == t[..i] + t[i..];
  }

  function Swapped(s: seq<string>, i: nat, j: nat): seq<string>
    requires i < |s| && j < |s|
  {
    s[i := s[j]][j := s[i]]
  }

  lemma {:induction false} SwapRearranges(s: seq<string>, i: nat, j: nat, was: seq<string>)
    requires i < j < |s| == |was| && RearrangedFrom(was, s, i)
    ensures RearrangedFrom(was, Swapped(s, i, j), i)
  {
    var r := Swapped(s, i, j);
    SwapKeepsMultiset(s[i..], 0, j - i);
    assert r[i..] == s[i..][0 := s[i..][j - i]][j - i := s[i..][0]];
    assert r[..i] == s[..i];
  }

  lemma {:induction false} SwapPutsLeastFirst(s: seq<string>, i: nat, j: nat)
    requires i < j < |s| && LeastFrom(s, i, j)
    ensures LeastFrom(if Less(s[j], s[i]) then Swapped(s, i, j) else s, i, j + 1)
  {
    if Less(s[j], s[i]) {
      hide Less, AtMost;
      var r := Swapped(s, i, j);
      forall k | i <= k <= j ensures AtMost(r[i], r[k]) {
        BelowLeast(s[j], s[i], if i < k < j then s[k] else s[i]);
      }
    } else {
      NotLess(s[j], s[i]);
    }
  }

  /** Puts the least of the names i.. at i. */
  method SelectAt(a: array<string>, i: nat)
    requires i < a.Length
    modifies a
    ensures RearrangedFrom(old(a[..]), a[..], i) && LeastFrom(a[..], i, a.Length)
  {
    LessIrreflexive(a[i]);
    assert LeastFrom(a[..], i, i + 1);
    hide Less, LeastFrom, RearrangedFrom, Swapped;
    var j := i + 1;
    SameRearranged(a[..], i);
    while j < a.Length
      invariant i < j <= a.Length
      invariant RearrangedFrom(old(a[..]), a[..], i) && LeastFrom(a[..], i, j)
    {
      ghost var s := a[..];
      SwapPutsLeastFirst(s, i, j);
      SwapRearranges(s, i, j, old(a[..]));
      if Less(a[j], a[i]) {
        a[i], a[j] := a[j], a[i];
        SwappedArray(s, a[..], i, j);
      }
      j := j + 1;
    }
  }

  lemma {:induction false} SameRearranged(s: seq<string>, i: nat)
    requires i <= |s|
    ensures RearrangedFrom(s, s, i)
  {
  }

  lemma {:induction false} SwappedArray(s: seq<string>, t: seq<string>, i: nat, j: nat)
    requires i < j < |s| == |t| && t[i] == s[j] && t[j] == s[i]
    requires forall k :: 0 <= k < |s| && k != i && k != j ==> t[k] == s[k]
    ensures t == Swapped(s, i, j)
  {
  }

  lemma {:induction false} NotLess(x: string, y: string)
    requires !Less(x, y)
    ensures AtMost(y, x)
  {
  }

  lemma {:induction false} BelowLeast(x: string, least: string, y: string)
    requires Less(x, least) && AtMost(least, y)
    ensures AtMost(x, y) && AtMost(x, least) && AtMost(x, x)
  {
    LessAtMost(x, least, y);
    LessAsymmetric(x, y);
    LessAsymmetric(x, least);
    LessIrreflexive(x);
  }

  /** The first i names are at most every name behind them. */
  predicate SortedTo(s: seq<string>, i: nat)
    requires i <= |s|
  {
    forall j, k :: 0 <= j < i && j < k < |s| ==> AtMost(s[j], s[k])
  }

  lemma {:induction false} SelectedNext(s: seq<string>, t: seq<string>, i: nat)
    requires i < |s| == |t| && SortedTo(s, i) && RearrangedFrom(s, t, i) && LeastFrom(t, i, |t|)
    ensures SortedTo(t, i + 1)
  {
    forall j, k | 0 <= j < i && j < k < |t| ensures AtMost(t[j], t[k]) {
      assert t[j] == t[..i][j] == s[j];
      if k < i {
        assert t[k] == t[..i][k] == s[k];
      } else {
        assert t[k] == t[i..][k - i] && t[k] in multiset(s[i..]);
        var m :| 0 <= m < |s[i..]| && s[i..][m] == t[k];
        assert s[i + m] == t[k];
      }
    }
  }

  /** sortStrings: an exchange sort in place. */
  method SortStrings(a: array<string>)
    modifies a
    ensures SortedNames(a[..]) && multiset(a[..]) == multiset(old(a[..]))
  {
    var i := 0;
    while i < a.Length
      invariant i <= a.Length && multiset(a[..]) == multiset(old(a[..])) && SortedTo(a[..], i)
    {
      ghost var s := a[..];
      SelectAt(a, i);
      RearrangedAll(s, a[..], i);
      SelectedNext(s, a[..], i);
      hide SortedTo, RearrangedFrom, LeastFrom;
      i := i + 1;
    }
  }

  /** Sorted lists of the same names are equal. */
  lemma {:induction false} SortedUnique(a: seq<string>, b: seq<string>)
    requires SortedNames(a) && SortedNames(b) && multiset(a) == multiset(b)
    ensures a == b
  {
    if a == [] {
      assert |multiset(b)| == 0;
    } else {
      assert |multiset(b)| == |b| == |a|;
      SameFirst(a, b);
      hide SortedNames;
      assert a == [a[0]] + a[1..] && b == [b[0]] + b[1..];
      assert multiset(a[1..]) == multiset(a) - multiset{a[0]};
      assert multiset(b[1..]) == multiset(b) - multiset{b[0]};
      TailSorted(a);
      TailSorted(b);
      SortedUnique(a[1..], b[1..]);
    }
  }

  lemma {:induction false} TailSorted(a: seq<string>)
    requires SortedNames(a) && a != []
    ensures SortedNames(a[1..])
  {
  }

  lemma {:induction false} FirstIsLeast(a: seq<string>, x: string)
    requires SortedNames(a) && a != [] && x in a
    ensures AtMost(a[0], x)
  {
    LessIrreflexive(a[0]);
  }

  lemma {:induction false} SameFirst(a: seq<string>, b: seq<string>)
    requires SortedNames(a) && SortedNames(b) && multiset(a) == multiset(b) && a != [] && b != []
    ensures a[0] == b[0]
  {
    assert a[0] in multiset(b) && b[0] in multiset(a);
    FirstIsLeast(a, b[0]);
    FirstIsLeast(b, a[0]);
    LessTotal(a[0], b[0]);
  }

  function InsertName(x: string, s: seq<string>): seq<string> {
    if s == [] then [x] else if Less(s[0], x) then [s[0]] + InsertName(x, s[1..]) else [x] + s
  }

  function Sorted(names: seq<string>): seq<string> {
    if names == [] then [] else InsertName(names[0], Sorted(names[1..]))
  }

  lemma {:induction false} InsertMembers(x: string, s: seq<string>)
    ensures multiset(InsertName(x, s)) == multiset(s) + multiset{x}
    ensures forall y :: y in InsertName(x, s) <==> y in s || y == x
  {
    if s != [] {
      assert s == [s[0]] + s[1..];
      if Less(s[0], x) {
        InsertMembers(x, s[1..]);
      }
    }
  }

  lemma {:induction false} ConsSorted(x: string, s: seq<string>)
    requires SortedNames(s) && forall y :: y in s ==> AtMost(x, y)
    ensures SortedNames([x] + s)
  {
    assert forall k :: 0 <= k < |s| ==> s[k] in s;
  }

  lemma {:induction false} InsertKeepsSorted(x: string, s: seq<string>)
    requires SortedNames(s)
    ensures SortedNames(InsertName(x, s))
  {
    if s != [] {
      if Less(s[0], x) {
        TailSorted(s);
        InsertKeepsSorted(x, s[1..]);
        InsertMembers(x, s[1..]);
        LessAsymmetric(s[0], x);
        forall y | y in s[1..] ensures AtMost(s[0], y) {
          FirstIsLeast(s, y);
        }
        hide SortedNames;
        ConsSorted(s[0], InsertName(x, s[1..]));
      } else {
        forall y | y in s ensures AtMost(x, y) {
          FirstIsLeast(s, y);
          LessAtMost(x, s[0], y);
        }
        hide SortedNames;
        ConsSorted(x, s);
      }
    }
  }

  lemma {:induction false} SortedSorts(names: seq<string>)
    ensures SortedNames(Sorted(names)) && multiset(Sorted(names)) == multiset(names)
  {
    if names != [] {
      SortedSorts(names[1..]);
      InsertKeepsSorted(names[0], Sorted(names[1..]));
      InsertMembers(names[0], Sorted(names[1..]));
      assert names == [names[0]] + names[1..];
    }
  }

  /** The key of a search, for any hash. */
  function KeyFor(indices: seq<string>, body: string, hash: string -> string): string {
    hash(KeyText(Sorted(indices), body))
  }

  method MakeKey(indices: seq<string>, body: string, hash: string -> string) returns (key: string)
    ensures key == KeyFor(indices, body, hash)
  {
    var sorted := new string[|indices|](i requires 0 <= i < |indices| => indices[i]);
    assert sorted[..] == indices;
    SortStrings(sorted);
    ghost var names := sorted[..];
    var text := "";
    var i := 0;
    while i < sorted.Length
      invariant i <= sorted.Length && names == sorted[..]
      invariant text == Join(sorted[..i], "|")
    {
      if i > 0 {
        text := text + "|";
      }
      text := text + sorted[i];
      JoinSnoc(sorted[..i], sorted[i]);
      assert sorted[..i+1] == sorted[..i] + [sorted[i]];
      i := i + 1;
    }
    assert sorted[..i] == names;
    SortedSorts(indices);
    SortedUnique(names, Sorted(indices));
    key := hash(text + "#" + body);
  }

  lemma {:induction false} JoinSnoc(parts: seq<string>, p: string)
    ensures Join(parts + [p], "|") == if parts == [] then p else Join(parts, "|") + "|" + p
  {
    if |parts| == 0 {
      assert parts + [p] == [p];
    } else {
      assert (parts + [p])[1..] == parts[1..] + [p];
      JoinSnoc(parts[1..], p);
      if |parts| == 1 {
        assert parts[1..] == [];
      } else {
        Reassociate(parts[0] + "|", Join(parts[1..], "|"), "|", p);
      }
    }
  }

  // ------------------------------------------------------------------
  // When two searches share a key
  // ------------------------------------------------------------------

  /** Without the two separators. */
  predicate Clean(name: string) { '|' !in name && '#' !in name }

  predicate AllClean(names: seq<string>) { forall n :: n in names ==> Clean(n) }

  predicate NotBar(c: char) { c != '|' }

  predicate NotHash(c: char) { c != '#' }

  lemma {:induction false} JoinHasNoHash(names: seq<string>)
    requires AllClean(names)
    ensures forall i :: 0 <= i < |Join(names, "|")| ==> Join(names, "|")[i] != '#'
  {
    if names != [] {
      assert names[0] in names;
      if |names| > 1 {
        JoinHasNoHash(names[1..]);
      }
    }
  }

  lemma {:induction false} JoinInjective(a: seq<string>, b: seq<string>)
    requires AllClean(a) && AllClean(b) && a != [] && b != [] && Join(a, "|") == Join(b, "|")
    ensures a == b
  {
    FirstName(a);
    FirstName(b);
    assert a[0] == b[0];
    assert |Join(a, "|")| == |a[0]| <==> |a| == 1;
    if |a| > 1 {
      assert Join(a, "|")[|a[0]|+1..] == Join(a[1..], "|");
      assert Join(b, "|")[|b[0]|+1..] == Join(b[1..], "|");
      JoinInjective(a[1..], b[1..]);
      assert a == [a[0]] + a[1..] && b == [b[0]] + b[1..];
    } else {
      assert a == [a[0]] && b == [b[0]];
    }
  }

  lemma {:induction false} FirstName(names: seq<string>)
    requires AllClean(names) && names != []
    ensures Run(Join(names, "|"), NotBar) == |names[0]| <= |Join(names, "|")|
    ensures Join(names, "|")[..|names[0]|] == names[0]
    ensures |Join(names, "|")| == |names[0]| <==> |names| == 1
  {
    assert names[0] in names;
    RunIs(Join(names, "|"), NotBar, |names[0]|);
  }

  /** Searches over clean names, at least one each, have one key text only if they are over the same names with the same
      body. */
  lemma {:induction false} KeyTextInjective(a: seq<string>, x: string, b: seq<string>, y: string)
    requires AllClean(a) && AllClean(b) && a != [] && b != [] && KeyText(a, x) == KeyText(b, y)
    ensures a == b && x == y
  {
    JoinHasNoHash(a);
    JoinHasNoHash(b);
    var ja, jb := Join(a, "|"), Join(b, "|");
    RunIs(KeyText(a, x), NotHash, |ja|);
    RunIs(KeyText(b, y), NotHash, |jb|);
    assert ja == KeyText(a, x)[..|ja|] && jb == KeyText(b, y)[..|jb|];
    assert x == KeyText(a, x)[|ja|+1..] && y == KeyText(b, y)[|jb|+1..];
    JoinInjective(a, b);
  }

  /** For a hash without collisions, two searches over clean names share a key if and only if they are over the same
      names in any order, with the same body. */
  lemma {:induction false} SameKeyExactlyWhen(a: seq<string>, x: string, b: seq<string>, y: string,
                                              hash: string -> string)
    requires AllClean(a) && AllClean(b) && a != [] && b != []
    requires forall s, t :: hash(s) == hash(t) ==> s == t
    ensures KeyFor(a, x, hash) == KeyFor(b, y, hash) <==> multiset(a) == multiset(b) && x == y
  {
    SortedSorts(a);
    SortedSorts(b);
    hide Sorted, KeyText, SortedNames;
    var sa, sb := Sorted(a), Sorted(b);
    assert AllClean(sa) && AllClean(sb) by {
      SameMembers(a, sa);
      SameMembers(b, sb);
    }
    if KeyFor(a, x, hash) == KeyFor(b, y, hash) {
      KeyTextInjective(sa, x, sb, y);
    }
    if multiset(a) == multiset(b) {
      SortedUnique(sa, sb);
    }
  }

  lemma {:induction false} SameMembers(a: seq<string>, b: seq<string>)
    requires multiset(a) == multiset(b)
    ensures forall x :: x in a <==> x in b
  {
    forall x ensures x in a <==> x in b {
      assert x in multiset(a) <==> x in multiset(b);
    }
  }

  /** The pieces of s between the bars. */
  function Split(s: string): (r: seq<string>)
    ensures r != []
  {
    var n := Run(s, NotBar);
    if n == |s| then [s] else [s[..n]] + Split(s[n+1..])
  }

  lemma {:induction false} SplitJoins(s: string)
    requires '#' !in s
    ensures Join(Split(s), "|") == s && AllClean(Split(s))
  {
    var n := Run(s, NotBar);
    if n == |s| {
      assert forall c :: c in s ==> NotBar(c);
    } else {
      SplitJoins(s[n+1..]);
      assert s == s[..n] + "|" + s[n+1..];
      assert forall c :: c in s[..n] ==> NotBar(c);
      var rest := Split(s[n+1..]);
      assert ([s[..n]] + rest)[1..] == rest;
    }
  }

  /** The clean names and the body whose key text is that of a search over a: the names end at the first hash. */
  function TwinNames(a: seq<string>): (b: seq<string>)
    ensures b != []
  {
    var j := Join(a, "|");
    Split(j[..Run(j, NotHash)])
  }

  function TwinBody(a: seq<string>, x: string): string {
    var j := Join(a, "|");
    var n := Run(j, NotHash);
    if n == |j| then x else j[n+1..] + "#" + x
  }

  lemma {:induction false} TwinHasSameText(a: seq<string>, x: string)
    ensures AllClean(TwinNames(a)) && KeyText(TwinNames(a), TwinBody(a, x)) == KeyText(a, x)
  {
    var j := Join(a, "|");
    var n := Run(j, NotHash);
    assert '#' !in j[..n] by {
      assert forall c :: c in j[..n] ==> NotHash(c);
    }
    SplitJoins(j[..n]);
    if n == |j| {
      assert j[..n] == j;
    } else {
      assert j + "#" + x == j[..n] + "#" + (j[n+1..] + "#" + x);
    }
  }

  /** No search over clean names shares the key text of a search if and only if its own names are clean: a bar or a hash
      in a name makes it collide. */
  lemma {:induction false} CollidesExactlyWhen(a: seq<string>)
    requires a != []
    ensures AllClean(a) <==>
      forall b, x, y :: b != [] && AllClean(b) && KeyText(a, x) == KeyText(b, y) ==> a == b && x == y
  {
    if AllClean(a) {
      forall b, x, y | b != [] && AllClean(b) && KeyText(a, x) == KeyText(b, y) ensures a == b && x == y {
        KeyTextInjective(a, x, b, y);
      }
    } else {
      TwinHasSameText(a, "");
    }
  }

  /** The names are sorted before they are joined, so a search collides with one over clean names if and only if its
      names are not clean and its clean twin is sorted. */
  lemma {:induction false} KeysCollideExactlyWhen(a: seq<string>, hash: string -> string)
    requires a != [] && SortedNames(a)
    requires forall s, t :: hash(s) == hash(t) ==> s == t
    ensures !AllClean(a) && SortedNames(TwinNames(a)) <==>
      exists b, x, y :: b != [] && AllClean(b) && KeyFor(a, x, hash) == KeyFor(b, y, hash)
                        && !(multiset(a) == multiset(b) && x == y)
  {
    SortedSorts(a);
    hide Sorted, KeyText, SortedNames, TwinNames, TwinBody;
    SortedUnique(Sorted(a), a);
    var t := TwinNames(a);
    TwinHasSameText(a, "");
    if !AllClean(a) && SortedNames(t) {
      SortedSorts(t);
      SortedUnique(Sorted(t), t);
      assert multiset(a) != multiset(t) by {
        if multiset(a) == multiset(t) {
          SortedUnique(a, t);
        }
      }
      assert KeyFor(a, "", hash) == KeyFor(t, TwinBody(a, ""), hash);
    }
    if b, x, y :| b != [] && AllClean(b) && KeyFor(a, x, hash) == KeyFor(b, y, hash)
                  && !(multiset(a) == multiset(b) && x == y)
    {
      if AllClean(a) {
        SameKeyExactlyWhen(a, x, b, y, hash);
      } else {
        SortedSorts(b);
        SameMembers(b, Sorted(b));
        TwinHasSameText(a, x);
        KeyTextInjective(t, TwinBody(a, x), Sorted(b), y);
      }
    }
  }
}
