/** The client pool's load balancers: smooth weighted round robin and plain rotation (pkg/pool/pool.go). */
module RoundRobin {
  import opened Common

  // ------------------------------------------------------------------
  // The weighted scheduler as a function on the list of current weights
  // ------------------------------------------------------------------

  function SumTo(s: seq<int>, n: nat): int
    requires n <= |s|
  {
    if n == 0 then 0 else SumTo(s, n - 1) + s[n - 1]
  }

  function Sum(s: seq<int>): int { SumTo(s, |s|) }

  /** Node weights are at least 1: NewPool and AddNode replace a weight of 0 or less by 1. */
  predicate Weights(w: seq<int>) {
    w != [] && forall i :: 0 <= i < |w| ==> w[i] >= 1
  }

  /** Every node gains its weight. */
  function Bump(w: seq<int>, c: seq<int>): seq<int>
    requires |w| == |c|
  {
    seq(|w|, i requires 0 <= i < |w| => c[i] + w[i])
  }

  /** Leftmost position of the largest of the first n elements: the loop replaces its candidate only by a larger one. */
  function ArgMaxTo(s: seq<int>, n: nat): (k: nat)
    requires 0 < n <= |s|
    ensures k < n
  {
    if n == 1 then 0
    else
      var m := ArgMaxTo(s, n - 1);
      if s[n - 1] > s[m] then n - 1 else m
  }

  lemma {:induction false} ArgMaxIsMax(s: seq<int>, n: nat, i: nat)
    requires i < n <= |s|
    ensures s[i] <= s[ArgMaxTo(s, n)]
    ensures i < ArgMaxTo(s, n) ==> s[i] < s[ArgMaxTo(s, n)]
  {
    if n > 1 {
      ArgMaxIsMax(s, n - 1, if i < n - 1 then i else 0);
    }
  }

  function Chosen(w: seq<int>, c: seq<int>): (k: nat)
    requires |w| == |c| && w != []
    ensures k < |w|
  {
    ArgMaxTo(Bump(w, c), |w|)
  }

  function Advance(w: seq<int>, c: seq<int>): (c': seq<int>)
    requires |w| == |c| && w != []
    ensures |c'| == |w|
  {
    var k := Chosen(w, c);
    var b := Bump(w, c);
    b[k := b[k] - Sum(w)]
  }

  /** The current weights after `n` selections that start from `c`. */
  function After(w: seq<int>, c: seq<int>, n: nat): (c': seq<int>)
    requires |w| == |c| && w != []
    ensures |c'| == |w|
  {
    if n == 0 then c else Advance(w, After(w, c, n - 1))
  }

  /** How often node `i` is among the first `n` selections that start from `c`. */
  function Picks(w: seq<int>, c: seq<int>, n: nat, i: nat): nat
    requires |w| == |c| && w != []
  {
    if n == 0 then 0
    else Picks(w, c, n - 1, i) + (if Chosen(w, After(w, c, n - 1)) == i then 1 else 0)
  }

  function AllPicks(w: seq<int>, c: seq<int>, n: nat): (p: seq<int>)
    requires |w| == |c| && w != []
    ensures |p| == |w|
  {
    seq(|w|, i requires 0 <= i < |w| => Picks(w, c, n, i))
  }

  // ------------------------------------------------------------------
  // Sums
  // ------------------------------------------------------------------

  lemma {:induction false} SumOfPointwise(a: seq<int>, b: seq<int>, s: seq<int>, n: nat)
    requires n <= |a| == |b| == |s|
    requires forall i :: 0 <= i < n ==> s[i] == a[i] + b[i]
    ensures SumTo(s, n) == SumTo(a, n) + SumTo(b, n)
  {
    if n > 0 {
      SumOfPointwise(a, b, s, n - 1);
    }
  }

  lemma {:induction false} SumOfUpdate(s: seq<int>, k: nat, v: int, n: nat)
    requires k < |s| && n <= |s|
    ensures SumTo(s[k := v], n) == SumTo(s, n) + (if k < n then v - s[k] else 0)
  {
    if n > 0 {
      SumOfUpdate(s, k, v, n - 1);
    }
  }

  /** Pointwise smaller lists have smaller sums, and equal sums only when equal. */
  lemma {:induction false} SumIsMonotone(s: seq<int>, t: seq<int>, n: nat)
    requires n <= |s| == |t|
    requires forall i :: 0 <= i < n ==> s[i] <= t[i]
    ensures SumTo(s, n) <= SumTo(t, n)
    ensures SumTo(s, n) == SumTo(t, n) ==> forall i :: 0 <= i < n ==> s[i] == t[i]
  {
    if n > 0 {
      SumIsMonotone(s, t, n - 1);
    }
  }

  lemma {:induction false} SumOfConstant(s: seq<int>, v: int, n: nat)
    requires n <= |s|
    requires forall i :: 0 <= i < n ==> s[i] == v
    ensures SumTo(s, n) == n * v
  {
    if n > 0 {
      SumOfConstant(s, v, n - 1);
      assert n * v == (n - 1) * v + v;
    }
  }

  lemma {:induction false} WeightBelowTotal(w: seq<int>, i: nat, n: nat)
    requires Weights(w) && i < n <= |w|
    ensures 1 <= w[i] <= SumTo(w, n)
  {
    if n > 1 {
      WeightBelowTotal(w, if i < n - 1 then i else 0, n - 1);
    }
  }

  // ------------------------------------------------------------------
  // Conservation
  // ------------------------------------------------------------------

  /** A selection moves weight between nodes and never changes the total. */
  lemma {:induction false} AdvanceConservesSum(w: seq<int>, c: seq<int>)
    requires |w| == |c| && w != []
    ensures Sum(Advance(w, c)) == Sum(c)
    ensures Sum(Bump(w, c)) == Sum(c) + Sum(w)
  {
    var b, k := Bump(w, c), Chosen(w, c);
    SumOfPointwise(c, w, b, |w|);
    SumOfUpdate(b, k, b[k] - Sum(w), |w|);
  }

  lemma {:induction false} AfterConservesSum(w: seq<int>, c: seq<int>, n: nat)
    requires |w| == |c| && w != []
    ensures Sum(After(w, c, n)) == Sum(c)
  {
    if n > 0 {
      AfterConservesSum(w, c, n - 1);
      AdvanceConservesSum(w, After(w, c, n - 1));
    }
  }

  /** Closed form: the start, plus one weight per selection, minus the total weight per pick. */
  lemma {:induction false} CurrentWeightFormula(w: seq<int>, c: seq<int>, n: nat, i: nat)
    requires |w| == |c| && w != [] && i < |w|
    ensures After(w, c, n)[i] == c[i] + n * w[i] - Picks(w, c, n, i) * Sum(w)
  {
    if n > 0 {
      CurrentWeightFormula(w, c, n - 1, i);
      AdvanceAt(w, After(w, c, n - 1), i);
      Distribute(n - 1, 1, w[i]);
      Distribute(Picks(w, c, n - 1, i), 1, Sum(w));
    }
  }

  lemma {:induction false} AdvanceAt(w: seq<int>, c: seq<int>, i: nat)
    requires |w| == |c| && w != [] && i < |w|
    ensures Advance(w, c)[i] == c[i] + w[i] - (if Chosen(w, c) == i then Sum(w) else 0)
  {
  }

  lemma {:induction false} PicksAddUp(w: seq<int>, c: seq<int>, n: nat)
    requires |w| == |c| && w != []
    ensures Sum(AllPicks(w, c, n)) == n
  {
    hide Advance, Chosen;
    var p := AllPicks(w, c, n);
    if n == 0 {
      SumOfConstant(p, 0, |w|);
    } else {
      PicksAddUp(w, c, n - 1);
      var q, k := AllPicks(w, c, n - 1), Chosen(w, After(w, c, n - 1));
      SumOfUpdate(q, k, q[k] + 1, |w|);
      assert p == q[k := q[k] + 1];
    }
  }

  // ------------------------------------------------------------------
  // Fairness
  // ------------------------------------------------------------------

  /** The state NewPool and AddNode create: every current weight equals its weight. */
  function Initial(w: seq<int>): seq<int> { w }

  /** What node i offers at the next selection. */
  lemma {:induction false} OfferFormula(w: seq<int>, n: nat, i: nat)
    requires w != [] && i < |w|
    ensures Bump(w, After(w, Initial(w), n))[i] == (n + 2) * w[i] - Picks(w, Initial(w), n, i) * Sum(w)
  {
    CurrentWeightFormula(w, Initial(w), n, i);
    Distribute(n, 2, w[i]);
  }

  /** The node chosen offers a positive amount, because all offers together are positive. */
  lemma {:induction false} ChosenOfferIsPositive(w: seq<int>, n: nat)
    requires Weights(w)
    ensures Bump(w, After(w, Initial(w), n))[Chosen(w, After(w, Initial(w), n))] > 0
  {
    var a := After(w, Initial(w), n);
    var b := Bump(w, a);
    if b[Chosen(w, a)] <= 0 {
      var zero := seq(|w|, _ => 0);
      forall j | 0 <= j < |w| ensures b[j] <= zero[j] {
        ArgMaxIsMax(b, |w|, j);
      }
      SumIsMonotone(b, zero, |w|);
      SumOfConstant(zero, 0, |w|);
      AdvanceConservesSum(w, a);
      AfterConservesSum(w, Initial(w), n);
      WeightBelowTotal(w, 0, |w|);
    }
  }

  /** Some node is short of a pick as long as fewer selections than the total weight were made. */
  lemma {:induction false} SomebodyIsShort(w: seq<int>, n: nat) returns (j: nat)
    requires Weights(w) && n < Sum(w)
    ensures j < |w| && Picks(w, Initial(w), n, j) < w[j]
  {
    var p := AllPicks(w, Initial(w), n);
    PicksAddUp(w, Initial(w), n);
    if forall j :: 0 <= j < |w| ==> w[j] <= p[j] {
      SumIsMonotone(w, p, |w|);
    }
    j :| 0 <= j < |w| && p[j] < w[j];
  }

  /** Before the last selection of a period, a node already picked `weight` times offers nothing. */
  lemma {:induction false} SaturatedOffersNothing(w: seq<int>, n: nat, i: nat)
    requires Weights(w) && i < |w| && n + 2 <= Sum(w)
    requires Picks(w, Initial(w), n, i) == w[i]
    ensures Bump(w, After(w, Initial(w), n))[i] <= 0
  {
    OfferFormula(w, n, i);
    ScaleUp(n + 2, Sum(w), w[i]);
  }

  /** At the last selection of a period, a saturated node offers its weight and a node short of a pick far more. */
  lemma {:induction false} LastOffer(w: seq<int>, n: nat, i: nat)
    requires Weights(w) && i < |w| && n + 1 == Sum(w)
    requires Picks(w, Initial(w), n, i) <= w[i]
    ensures Picks(w, Initial(w), n, i) == w[i] ==> Bump(w, After(w, Initial(w), n))[i] == w[i]
    ensures Picks(w, Initial(w), n, i) < w[i] ==> Bump(w, After(w, Initial(w), n))[i] >= w[i] + Sum(w)
  {
    OfferFormula(w, n, i);
    LastOfferAmount(n, w[i], Picks(w, Initial(w), n, i));
  }

  lemma {:induction false} LastOfferAmount(n: nat, weight: int, picks: int)
    requires picks <= weight
    ensures picks == weight ==> (n + 2) * weight - picks * (n + 1) == weight
    ensures picks < weight ==> (n + 2) * weight - picks * (n + 1) >= weight + (n + 1)
  {
    var W := n + 1;
    Distribute(W, 1, weight);
    Distribute(weight - picks, picks, W);
    if picks < weight {
      ScaleUp(1, weight - picks, W);
    }
  }

  lemma {:induction false} ScaleUp(a: int, b: int, x: int)
    requires a <= b && x >= 0
    ensures a * x <= b * x
  {
  }

  /** A node already picked `weight` times is not picked again in the same period. */
  lemma {:induction false} SaturatedNotChosen(w: seq<int>, n: nat, i: nat)
    requires Weights(w) && i < |w| && n < Sum(w)
    requires forall j :: 0 <= j < |w| ==> Picks(w, Initial(w), n, j) <= w[j]
    requires Picks(w, Initial(w), n, i) == w[i]
    ensures Chosen(w, After(w, Initial(w), n)) != i
  {
    if n + 2 <= Sum(w) {
      SaturatedOffersNothing(w, n, i);
      ChosenOfferIsPositive(w, n);
    } else {
      var j := SomebodyIsShort(w, n);
      LastOffer(w, n, i);
      LastOffer(w, n, j);
      WeightBelowTotal(w, i, |w|);
      ArgMaxIsMax(Bump(w, After(w, Initial(w), n)), |w|, j);
    }
  }

  /** Inside a period no node is picked more often than its weight. */
  lemma {:induction false} PicksWithinWeight(w: seq<int>, n: nat, i: nat)
    requires Weights(w) && i < |w| && n <= Sum(w)
    ensures Picks(w, Initial(w), n, i) <= w[i]
  {
    if n > 0 {
      forall j | 0 <= j < |w| ensures Picks(w, Initial(w), n - 1, j) <= w[j] {
        PicksWithinWeight(w, n - 1, j);
      }
      if Picks(w, Initial(w), n - 1, i) == w[i] {
        SaturatedNotChosen(w, n - 1, i);
      }
    }
  }

  function Period(w: seq<int>): (W: nat)
    requires Weights(w)
    ensures W == Sum(w) && W >= 1
  {
    WeightBelowTotal(w, 0, |w|);
    Sum(w)
  }

  lemma {:induction false} FullPeriodPicks(w: seq<int>)
    requires Weights(w)
    ensures forall i :: 0 <= i < |w| ==> Picks(w, Initial(w), Period(w), i) == w[i]
  {
    var p := AllPicks(w, Initial(w), Period(w));
    forall i | 0 <= i < |w| ensures p[i] <= w[i] {
      PicksWithinWeight(w, Period(w), i);
    }
    PicksAddUp(w, Initial(w), Period(w));
    SumIsMonotone(p, w, |w|);
    forall i | 0 <= i < |w| ensures Picks(w, Initial(w), Period(w), i) == w[i] {
      assert p[i] == w[i];
    }
  }

  lemma {:induction false} FullPeriodWeight(w: seq<int>, i: nat)
    requires Weights(w) && i < |w| && Picks(w, Initial(w), Period(w), i) == w[i]
    ensures After(w, Initial(w), Period(w))[i] == w[i]
  {
    CurrentWeightFormula(w, Initial(w), Period(w), i);
  }

  /** One full period picks every node exactly `weight` times and restores every current weight. */
  lemma {:induction false} FullPeriod(w: seq<int>, i: nat)
    requires Weights(w) && i < |w|
    ensures Picks(w, Initial(w), Period(w), i) == w[i]
    ensures After(w, Initial(w), Period(w)) == Initial(w)
  {
    FullPeriodPicks(w);
    var a := After(w, Initial(w), Period(w));
    forall j | 0 <= j < |w| ensures a[j] == w[j] {
      FullPeriodWeight(w, j);
    }
  }

  /** Runs compose: `m` selections, then `n` more from the state reached. */
  lemma {:induction false} RunsCompose(w: seq<int>, c: seq<int>, m: nat, n: nat, i: nat)
    requires |w| == |c| && w != []
    ensures After(w, c, m + n) == After(w, After(w, c, m), n)
    ensures Picks(w, c, m + n, i) == Picks(w, c, m, i) + Picks(w, After(w, c, m), n, i)
  {
    hide Advance, Chosen;
    if n > 0 {
      RunsCompose(w, c, m, n - 1, i);
    }
  }

  /** Any window of one period length, wherever it starts, picks every node exactly `weight` times. */
  lemma {:induction false} AnyWindowIsFair(w: seq<int>, start: nat, i: nat)
    requires Weights(w) && i < |w|
    ensures Picks(w, Initial(w), start + Period(w), i) == Picks(w, Initial(w), start, i) + w[i]
    ensures After(w, Initial(w), start + Period(w)) == After(w, Initial(w), start)
  {
    hide After, Picks;
    FullPeriod(w, i);
    RunsCompose(w, Initial(w), Period(w), start, i);
  }

  /** The number of selections in q periods of length W. */
  function Periods(q: nat, W: nat): nat {
    if q == 0 then 0 else Periods(q - 1, W) + W
  }

  lemma {:induction false} PeriodsIsProduct(q: nat, W: nat)
    ensures Periods(q, W) == q * W
  {
    if q > 0 {
      PeriodsIsProduct(q - 1, W);
      Distribute(q - 1, 1, W);
    }
  }

  /** The selections made in `q` whole periods are q*weight for every node, and the state repeats. */
  lemma {:induction false} WholePeriods(w: seq<int>, q: nat, r: nat, i: nat)
    requires Weights(w) && i < |w|
    ensures After(w, Initial(w), Periods(q, Period(w)) + r) == After(w, Initial(w), r)
    ensures Picks(w, Initial(w), Periods(q, Period(w)) + r, i) == Periods(q, w[i]) + Picks(w, Initial(w), r, i)
  {
    hide After, Picks;
    if q > 0 {
      WholePeriods(w, q - 1, r, i);
      AnyWindowIsFair(w, Periods(q - 1, Period(w)) + r, i);
    }
  }

  /** After `q` whole periods and `r` further selections, every count lies between q*weight and (q+1)*weight. */
  lemma {:induction false} LongRunFairness(w: seq<int>, q: nat, r: nat, i: nat)
    requires Weights(w) && i < |w| && r <= Period(w)
    ensures q * Period(w) >= 0
    ensures q * w[i] <= Picks(w, Initial(w), q * Period(w) + r, i) <= (q + 1) * w[i]
  {
    PeriodsIsProduct(q, Period(w));
    PeriodsIsProduct(q, w[i]);
    PeriodsIsProduct(q + 1, w[i]);
    WholePeriods(w, q, r, i);
    PicksWithinWeight(w, r, i);
  }
}
