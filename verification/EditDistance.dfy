/** The bounded edit distance behind the term suggester (internal/search/suggest.go). Strings are rune sequences. */
module EditDistance {

  function Min3(a: int, b: int, c: int): (m: int)
    ensures m <= a && m <= b && m <= c && (m == a || m == b || m == c)
  {
    var m := if b < a then b else a;
    if c < m then c else m
  }

  function Init(s: string): string
    requires s != []
  {
    s[..|s|-1]
  }

  function Last(s: string): char
    requires s != []
  {
    s[|s|-1]
  }

  function Cost(x: char, y: char): int { if x == y then 0 else 1 }

  /** The recursive Levenshtein distance. */
  function Dist(a: string, b: string): nat
    decreases |a| + |b|
  {
    if a == [] then |b|
    else if b == [] then |a|
    else Min3(Dist(Init(a), b) + 1, Dist(a, Init(b)) + 1, Dist(Init(a), Init(b)) + Cost(Last(a), Last(b)))
  }

  // ------------------------------------------------------------------
  // What the distance means: the least number of single-rune edits
  // ------------------------------------------------------------------

  /** c is a with the piece x between p and s replaced by y; pieces hold at most one rune, so this is
      an insertion, a deletion, a substitution, or nothing. */
  ghost predicate EditAt(a: string, c: string, p: string, x: string, y: string, s: string) {
    a == p + x + s && c == p + y + s && |x| <= 1 && |y| <= 1
  }

  ghost predicate OneEdit(a: string, c: string) {
    exists p, x, y, s :: EditAt(a, c, p, x, y, s)
  }

  /** b can be reached from a by n successive edits. */
  ghost predicate Reaches(a: string, b: string, n: nat)
    decreases n
  {
    if n == 0 then a == b
    else exists c :: OneEdit(a, c) && Reaches(c, b, n - 1)
  }

  lemma {:induction false} DistSelf(a: string)
    ensures Dist(a, a) == 0
  {
    if a != [] {
      DistSelf(Init(a));
    }
  }

  /** Dropping the last rune of the first string changes the distance by at most one. */
  lemma {:induction false} DropLast(p: string, y: char, b: string)
    ensures Dist(p, b) <= Dist(p + [y], b) + 1
    decreases |b|
  {
    assert Init(p + [y]) == p;
    if b != [] {
      DropLast(p, y, Init(b));
    }
  }

  lemma {:induction false} ReplaceLast(p: string, x: char, y: char, b: string)
    ensures Dist(p + [x], b) <= Dist(p + [y], b) + 1
    decreases |b|
  {
    assert Init(p + [x]) == p && Init(p + [y]) == p;
    if b != [] {
      ReplaceLast(p, x, y, Init(b));
    }
  }

  /** One edit of the first string changes the distance by at most one. */
  lemma {:induction false} OneEditMovesByOne(a: string, c: string, p: string, x: string, y: string, s: string,
                                             b: string)
    requires EditAt(a, c, p, x, y, s)
    ensures Dist(a, b) <= Dist(c, b) + 1
    decreases |s| + |b|
  {
    if s == [] {
      assert a == p + x && c == p + y;
      if x == [] && y != [] {
        assert a == p && c == p + [y[0]];
        DropLast(p, y[0], b);
      } else if x != [] && y != [] {
        assert a == p + [x[0]] && c == p + [y[0]];
        ReplaceLast(p, x[0], y[0], b);
      } else if x != [] {
        assert c == p && Init(a) == p;
      } else {
        assert a == c;
      }
    } else if b != [] {
      assert Init(a) == p + x + Init(s) && Init(c) == p + y + Init(s);
      assert Last(a) == Last(c) == Last(s);
      OneEditMovesByOne(Init(a), Init(c), p, x, y, Init(s), b);
      OneEditMovesByOne(a, c, p, x, y, s, Init(b));
      OneEditMovesByOne(Init(a), Init(c), p, x, y, Init(s), Init(b));
    }
  }

  /** No script of edits is shorter than the distance. */
  lemma {:induction false} DistIsLowerBound(a: string, b: string, n: nat)
    requires Reaches(a, b, n)
    ensures Dist(a, b) <= n
    decreases n
  {
    if n == 0 {
      DistSelf(a);
    } else {
      var c :| OneEdit(a, c) && Reaches(c, b, n - 1);
      var p, x, y, s :| EditAt(a, c, p, x, y, s);
      DistIsLowerBound(c, b, n - 1);
      OneEditMovesByOne(a, c, p, x, y, s, b);
    }
  }

  lemma {:induction false} ReachesWithSuffix(a: string, b: string, n: nat, z: string)
    requires Reaches(a, b, n)
    ensures Reaches(a + z, b + z, n)
    decreases n
  {
    if n > 0 {
      var c :| OneEdit(a, c) && Reaches(c, b, n - 1);
      var p, x, y, s :| EditAt(a, c, p, x, y, s);
      assert a + z == p + x + (s + z) && c + z == p + y + (s + z);
      assert EditAt(a + z, c + z, p, x, y, s + z);
      assert OneEdit(a + z, c + z);
      ReachesWithSuffix(c, b, n - 1, z);
    }
  }

  lemma {:induction false} ReachesByEdit(a: string, c: string, p: string, x: string, y: string, s: string, b: string,
                                         n: nat)
    requires EditAt(a, c, p, x, y, s) && Reaches(c, b, n)
    ensures Reaches(a, b, n + 1)
  {
    assert OneEdit(a, c);
  }

  /** A script of exactly Dist(a, b) edits exists. */
  lemma {:induction false} DistIsReached(a: string, b: string)
    ensures Reaches(a, b, Dist(a, b))
    decreases |a| + |b|
  {
    if a == [] && b == [] {
    } else if a == [] {
      DistIsReached(a, Init(b));
      InsertLast(a, b, Dist(a, Init(b)));
    } else if b == [] {
      DistIsReached(Init(a), b);
      assert a == Init(a) + [Last(a)] + [] && Init(a) == Init(a) + [] + [];
      ReachesByEdit(a, Init(a), Init(a), [Last(a)], [], [], b, Dist(Init(a), b));
    } else if Dist(a, b) == Dist(Init(a), b) + 1 {
      DistIsReached(Init(a), b);
      assert a == Init(a) + [Last(a)] + [] && Init(a) == Init(a) + [] + [];
      ReachesByEdit(a, Init(a), Init(a), [Last(a)], [], [], b, Dist(Init(a), b));
    } else if Dist(a, b) == Dist(a, Init(b)) + 1 {
      DistIsReached(a, Init(b));
      InsertLast(a, b, Dist(a, Init(b)));
    } else {
      DistIsReached(Init(a), Init(b));
      SubstituteLast(a, b, Dist(Init(a), Init(b)));
    }
  }

  lemma {:induction false} InsertLast(a: string, b: string, n: nat)
    requires b != [] && Reaches(a, Init(b), n)
    ensures Reaches(a, b, n + 1)
  {
    var z := [Last(b)];
    assert b == Init(b) + z;
    ReachesWithSuffix(a, Init(b), n, z);
    assert a == a + [] + [] && a + z == a + z + [];
    ReachesByEdit(a, a + z, a, [], z, [], b, n);
  }

  lemma {:induction false} SubstituteLast(a: string, b: string, n: nat)
    requires a != [] && b != [] && Reaches(Init(a), Init(b), n)
    ensures Reaches(a, b, n + Cost(Last(a), Last(b)))
  {
    var x, y := [Last(a)], [Last(b)];
    assert a == Init(a) + x && b == Init(b) + y;
    ReachesWithSuffix(Init(a), Init(b), n, y);
    if Last(a) != Last(b) {
      assert a == Init(a) + x + [] && Init(a) + y == Init(a) + y + [];
      ReachesByEdit(a, Init(a) + y, Init(a), x, y, [], b, n);
    }
  }

  /** Dist(a, b) is the least n for which n edits lead from a to b. */
  lemma {:induction false} DistIsLeastEdits(a: string, b: string)
    ensures Reaches(a, b, Dist(a, b))
    ensures forall n: nat :: Reaches(a, b, n) ==> Dist(a, b) <= n
  {
    DistIsReached(a, b);
    forall n: nat | Reaches(a, b, n) ensures Dist(a, b) <= n {
      DistIsLowerBound(a, b, n);
    }
  }

  // ------------------------------------------------------------------
  // Facts that justify the prunes
  // ------------------------------------------------------------------

  /** Swapping the arguments is harmless. */
  lemma {:induction false} DistSymmetric(a: string, b: string)
    ensures Dist(a, b) == Dist(b, a)
    decreases |a| + |b|
  {
    if a != [] && b != [] {
      DistSymmetric(Init(a), b);
      DistSymmetric(a, Init(b));
      DistSymmetric(Init(a), Init(b));
    }
  }

  /** The length difference is a lower bound. */
  lemma {:induction false} DistAtLeastLengthGap(a: string, b: string)
    ensures Dist(a, b) >= |a| - |b| && Dist(a, b) >= |b| - |a|
    decreases |a| + |b|
  {
    if a != [] && b != [] {
      DistAtLeastLengthGap(Init(a), b);
      DistAtLeastLengthGap(a, Init(b));
      DistAtLeastLengthGap(Init(a), Init(b));
    }
  }

  /** Cell (i, j) of the dynamic programming table. */
  function Cell(a: string, b: string, i: nat, j: nat): nat
    requires i <= |a| && j <= |b|
  {
    Dist(a[..i], b[..j])
  }

  lemma {:induction false} CellStep(a: string, b: string, i: nat, j: nat)
    requires i <= |a| && j <= |b|
    ensures i == 0 ==> Cell(a, b, i, j) == j
    ensures j == 0 ==> Cell(a, b, i, j) == i
    ensures i > 0 && j > 0 ==>
              Cell(a, b, i, j) == Min3(Cell(a, b, i - 1, j) + 1,
                                       Cell(a, b, i, j - 1) + 1,
                                       Cell(a, b, i - 1, j - 1) + Cost(a[i-1], b[j-1]))
  {
    if i > 0 && j > 0 {
      assert Init(a[..i]) == a[..i-1] && Init(b[..j]) == b[..j-1];
    }
  }

  /** Once every cell of a row exceeds k, so does every cell of every later row. */
  lemma {:induction false} RowStaysAbove(a: string, b: string, j: nat, j': nat, i: nat, k: int)
    requires j <= j' <= |b| && i <= |a|
    requires forall t :: 0 <= t <= |a| ==> Cell(a, b, t, j) > k
    ensures Cell(a, b, i, j') > k
    decreases j', i
  {
    if j < j' {
      CellStep(a, b, i, j');
      RowStaysAbove(a, b, j, j' - 1, i, k);
      if i > 0 {
        RowStaysAbove(a, b, j, j' - 1, i - 1, k);
        RowStaysAbove(a, b, j, j', i - 1, k);
      } else {
        CellStep(a, b, 0, j' - 1);
      }
    }
  }

  // ------------------------------------------------------------------
  // The two-row algorithm
  // ------------------------------------------------------------------

  function AbsInt(x: int): int { if x < 0 then -x else x }

  /** row holds column j of the table: the distances from every prefix of a to the first j runes of b. */
  ghost predicate IsRow(row: array<int>, a: string, b: string, j: nat, n: nat)
    requires n <= row.Length == |a| + 1 && j <= |b|
    reads row
  {
    forall t :: 0 <= t < n ==> row[t] == Cell(a, b, t, j)
  }

  /** The inner loop: computes row j from row j - 1 and returns its minimum. */
  method FillRow(ar: string, br: string, j: nat, prev: array<int>, curr: array<int>) returns (rowMin: int)
    requires 1 <= j <= |br| && prev != curr && prev.Length == curr.Length == |ar| + 1
    requires IsRow(prev, ar, br, j - 1, |ar| + 1)
    modifies curr
    ensures IsRow(curr, ar, br, j, |ar| + 1)
    ensures forall t :: 0 <= t <= |ar| ==> rowMin <= curr[t]
    ensures exists t :: 0 <= t <= |ar| && rowMin == curr[t]
  {
    hide Cell;
    curr[0] := j;
    CellStep(ar, br, 0, j);
    rowMin := curr[0];
    ghost var best := 0;
    for i := 1 to |ar| + 1
      invariant IsRow(prev, ar, br, j - 1, |ar| + 1) && IsRow(curr, ar, br, j, i)
      invariant forall t :: 0 <= t < i ==> rowMin <= curr[t]
      invariant best < i && rowMin == curr[best]
    {
      var cost := 1;
      if ar[i-1] == br[j-1] {
        cost := 0;
      }
      CellStep(ar, br, i, j);
      curr[i] := Min3(curr[i-1] + 1, prev[i] + 1, prev[i-1] + cost);
      if curr[i] < rowMin {
        rowMin := curr[i];
        best := i;
      }
    }
  }

  method FirstRow(ar: string, br: string) returns (prev: array<int>)
    ensures fresh(prev) && prev.Length == |ar| + 1 && IsRow(prev, ar, br, 0, |ar| + 1)
  {
    prev := new int[|ar| + 1];
    for i := 0 to |ar| + 1
      invariant IsRow(prev, ar, br, 0, i)
    {
      prev[i] := i;
      CellStep(ar, br, i, 0);
    }
  }

  lemma {:induction false} DistOfEmpty(a: string, b: string)
    ensures a == [] ==> Dist(a, b) == |b|
    ensures b == [] ==> Dist(a, b) == |a|
  {
  }

  lemma {:induction false} LastCell(a: string, b: string)
    ensures Cell(a, b, |a|, |b|) == Dist(a, b)
  {
    assert a[..|a|] == a && b[..|b|] == b;
  }

  /** The recursive distance when it is at most maxDistance, -1 otherwise. */
  method Levenshtein(a: string, b: string, maxDistance: int) returns (d: int)
    ensures d == if Dist(a, b) <= maxDistance then Dist(a, b) else -1
  {
    var ar, br := a, b;
    var la, lb := |ar|, |br|;
    DistOfEmpty(a, b);
    hide Dist, Cell;
    DistAtLeastLengthGap(a, b);
    if AbsInt(la - lb) > maxDistance {
      return -1;
    }
    if la == 0 {
      return lb;
    }
    if lb == 0 {
      return la;
    }
    DistSymmetric(a, b);
    if la > lb {
      ar, br := br, ar;
      la, lb := lb, la;
    }
    LastCell(ar, br);
    var prev := FirstRow(ar, br);
    var curr := new int[la + 1];
    for j := 1 to lb + 1
      invariant prev != curr && fresh(prev) && fresh(curr)
      invariant prev.Length == curr.Length == la + 1
      invariant IsRow(prev, ar, br, j - 1, la + 1)
    {
      var rowMin := FillRow(ar, br, j, prev, curr);
      if rowMin > maxDistance {
        RowStaysAbove(ar, br, j, lb, la, maxDistance);
        return -1;
      }
      prev, curr := curr, prev;
    }
    d := prev[la];
    if d > maxDistance {
      return -1;
    }
  }
}
