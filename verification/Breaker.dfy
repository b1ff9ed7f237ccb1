/** The client's circuit breaker (pkg/client/breaker.go). Times are integers; no claim needs
    them to be in order. */
module Breaker {
  import opened Collections

  datatype State = Closed | Open | HalfOpen

  datatype Config = Config(failureThreshold: int, timeout: int, successThreshold: int, maxHalfOpenReqs: int)

  /** Values that are not positive stand for the defaults. */
  function ApplyDefaults(c: Config): (r: Config)
    ensures Usable(r)
    ensures c.failureThreshold > 0 ==> r.failureThreshold == c.failureThreshold
    ensures c.timeout > 0 ==> r.timeout == c.timeout
    ensures c.successThreshold > 0 ==> r.successThreshold == c.successThreshold
    ensures c.maxHalfOpenReqs > 0 ==> r.maxHalfOpenReqs == c.maxHalfOpenReqs
    ensures c == Config(0, 0, 0, 0) ==> r == Config(5, 30_000_000_000, 2, 1)
  {
    Config(if c.failureThreshold <= 0 then 5 else c.failureThreshold,
           if c.timeout <= 0 then 30_000_000_000 else c.timeout,
           if c.successThreshold <= 0 then 2 else c.successThreshold,
           if c.maxHalfOpenReqs <= 0 then 1 else c.maxHalfOpenReqs)
  }

  predicate Usable(c: Config) {
    c.failureThreshold > 0 && c.timeout > 0 && c.successThreshold > 0 && c.maxHalfOpenReqs > 0
  }

  datatype Breaker = Breaker(state: State, failure: int, success: int, inflight: int, openedAt: int)

  const BEGIN: Breaker := Breaker(Closed, 0, 0, 0, 0)

  // ------------------------------------------------------------------
  // Steps
  // ------------------------------------------------------------------

  /** An open breaker turns half-open when its time is up. */
  function Ticked(c: Config, b: Breaker, now: int): Breaker {
    if b.state == Open && now - b.openedAt >= c.timeout then b.(state := HalfOpen, success := 0, inflight := 0) else b
  }

  /** Whether a request is let through. */
  predicate Grants(c: Config, b: Breaker, now: int) {
    var t := Ticked(c, b, now);
    t.state == Closed || (t.state == HalfOpen && t.inflight < c.maxHalfOpenReqs)
  }

  function Allowed(c: Config, b: Breaker, now: int): Breaker {
    var t := Ticked(c, b, now);
    if t.state == HalfOpen && t.inflight < c.maxHalfOpenReqs then t.(inflight := t.inflight + 1) else t
  }

  function Reported(c: Config, b: Breaker, now: int, ok: bool): Breaker {
    var t := Ticked(c, b, now);
    match t.state
    case Closed =>
      if ok then t.(failure := 0)
      else if t.failure + 1 >= c.failureThreshold then t.(failure := t.failure + 1, state := Open, openedAt := now)
      else t.(failure := t.failure + 1)
    case Open => if ok then t else t.(openedAt := now)
    case HalfOpen =>
      var u := if t.inflight > 0 then t.(inflight := t.inflight - 1) else t;
      if !ok then u.(state := Open, openedAt := now, success := 0)
      else if u.success + 1 >= c.successThreshold then Breaker(Closed, 0, 0, 0, u.openedAt)
      else u.(success := u.success + 1)
  }

  function ForcedOpen(b: Breaker, now: int): Breaker {
    if b.state == Open then b else b.(state := Open, openedAt := now)
  }

  function ForcedReset(b: Breaker): Breaker { b.(state := Closed, failure := 0, success := 0, inflight := 0) }

  // ------------------------------------------------------------------
  // Runs
  // ------------------------------------------------------------------

  /** Read stands for the calls that only look at the state. */
  datatype Event =
    | Allow(now: int)
    | Result(now: int, ok: bool)
    | Read(now: int)
    | ForceOpen(now: int)
    | ForceReset(now: int)

  function Apply(c: Config, b: Breaker, e: Event): Breaker {
    match e
    case Allow(now) => Allowed(c, b, now)
    case Result(now, ok) => Reported(c, b, now, ok)
    case Read(now) => Ticked(c, b, now)
    case ForceOpen(now) => ForcedOpen(b, now)
    case ForceReset(_) => ForcedReset(b)
  }

  function Run(c: Config, es: seq<Event>): Breaker {
    if es == [] then BEGIN else Apply(c, Run(c, es[..|es|-1]), es[|es|-1])
  }

  predicate Granted(c: Config, es: seq<Event>, k: nat)
    requires k < |es|
  {
    es[k].Allow? && Grants(c, Run(c, es[..k]), es[k].now)
  }

  /** How many of the events from.. are results with this outcome. */
  function Results(es: seq<Event>, from: nat, ok: bool): (n: nat)
    requires from <= |es|
  {
    if |es| == from then 0
    else Results(es[..|es|-1], from, ok) + (if es[|es|-1].Result? && es[|es|-1].ok == ok then 1 else 0)
  }

  /** How many requests were let through from.. */
  function GrantCount(c: Config, es: seq<Event>, from: nat): (n: nat)
    requires from <= |es|
  {
    if |es| == from then 0
    else GrantCount(c, es[..|es|-1], from) + (if Granted(c, es, |es|-1) then 1 else 0)
  }

  // ------------------------------------------------------------------
  // Closed: the failure count
  // ------------------------------------------------------------------

  /** The event ends a streak of failures: a success, a reset, or anything that leaves the breaker not closed. */
  predicate Breaks(c: Config, es: seq<Event>)
    requires es != []
  {
    var e := es[|es|-1];
    (e.Result? && e.ok) || e.ForceReset? || Run(c, es).state != Closed
  }

  /** The streak of failures begins behind the last such event. */
  function StreakStart(c: Config, es: seq<Event>): (s: nat)
    ensures s <= |es|
  {
    if es == [] then 0 else if Breaks(c, es) then |es| else StreakStart(c, es[..|es|-1])
  }

  /** While closed, the counter is the number of failures reported since the last success or since the breaker closed,
      and it is below the threshold. */
  lemma {:induction false} FailureIsStreak(c: Config, es: seq<Event>)
    requires Usable(c)
    ensures var b := Run(c, es);
      b.state == Closed ==> b.failure == Results(es, StreakStart(c, es), false) < c.failureThreshold
  {
    if es != [] {
      var n := |es| - 1;
      var prior, b, e := Run(c, es[..n]), Run(c, es), es[n];
      FailureIsStreak(c, es[..n]);
      if b.state == Closed && !Breaks(c, es) {
        // still closed, so it was closed before
        assert prior.state == Closed;
      }
    }
  }

  /** A reported result opens a closed breaker exactly when it is the failure that completes a streak of the threshold's
      length. */
  lemma {:induction false} TripsExactlyAtThreshold(c: Config, es: seq<Event>, now: int, ok: bool)
    requires Usable(c) && Run(c, es).state == Closed
    ensures Reported(c, Run(c, es), now, ok).state == Open <==>
            !ok && Results(es, StreakStart(c, es), false) + 1 == c.failureThreshold
  {
    FailureIsStreak(c, es);
    hide Run, Results, StreakStart;
  }

  // ------------------------------------------------------------------
  // Open: nothing is let through before the time is up
  // ------------------------------------------------------------------

  /** From an open breaker, as long as nobody resets it and its timeout has not passed since it opened, it stays open
      and lets nothing through; a failure reported meanwhile only moves the opening time on. */
  lemma {:induction false} OpenGrantsNothing(c: Config, es: seq<Event>, more: seq<Event>)
    requires Usable(c) && Run(c, es).state == Open
    requires forall e :: e in more ==> !e.ForceReset? && Run(c, es).openedAt <= e.now < Run(c, es).openedAt + c.timeout
    ensures var b := Run(c, es + more);
      b.state == Open && Run(c, es).openedAt <= b.openedAt && GrantCount(c, es + more, |es|) == 0
    decreases |more|
  {
    if more == [] {
      assert es + more == es;
    } else {
      var n := |more| - 1;
      assert more == more[..n] + [more[n]] && more[n] in more;
      OpenGrantsNothing(c, es, more[..n]);
      var all := es + more;
      assert all[..|all| - 1] == es + more[..n] && all[|all| - 1] == more[n];
      OneMoreEvent(c, all, |es|);
      StaysOpen(c, Run(c, es + more[..n]), more[n], Run(c, es).openedAt);
      hide Apply, GrantCount, Grants;
    }
  }

  lemma {:induction false} StaysOpen(c: Config, b: Breaker, e: Event, since: int)
    requires b.state == Open && since <= b.openedAt && !e.ForceReset? && since <= e.now < since + c.timeout
    ensures Apply(c, b, e).state == Open && since <= Apply(c, b, e).openedAt && !Grants(c, b, e.now)
  {
  }

  // ------------------------------------------------------------------
  // Half-open: probing
  // ------------------------------------------------------------------

  /** The index of the event at which the present half-open period began. */
  function Entered(c: Config, es: seq<Event>): (h: nat)
    requires es != []
    ensures h < |es|
  {
    var n := |es| - 1;
    if n > 0 && Run(c, es[..n]).state == HalfOpen then Entered(c, es[..n]) else n
  }

  /** In a half-open period: every result so far was a success, fewer than the threshold; requests let through exceed
      results by at most the limit. */
  ghost predicate Probing(c: Config, es: seq<Event>)
    requires es != []
  {
    var b, h := Run(c, es), Entered(c, es);
    && b.success == Results(es, h, true) < c.successThreshold && Results(es, h, false) == 0
    && 0 <= b.inflight <= c.maxHalfOpenReqs
    && GrantCount(c, es, h) <= b.inflight + Results(es, h, true)
  }

  lemma {:induction false} OneEvent(c: Config, es: seq<Event>, h: nat)
    requires h + 1 == |es|
    ensures forall ok :: Results(es, h, ok) == if es[h].Result? && es[h].ok == ok then 1 else 0
    ensures GrantCount(c, es, h) == if Granted(c, es, h) then 1 else 0
  {
    assert forall ok :: Results(es[..h], h, ok) == 0;
    assert GrantCount(c, es[..h], h) == 0;
    hide Granted;
  }

  lemma {:induction false} OneMoreEvent(c: Config, es: seq<Event>, h: nat)
    requires h < |es|
    ensures var n := |es| - 1;
      && (forall ok ::
            Results(es, h, ok) == Results(es[..n], h, ok) + (if es[n].Result? && es[n].ok == ok then 1 else 0))
      && GrantCount(c, es, h) == GrantCount(c, es[..n], h) + (if Granted(c, es, n) then 1 else 0)
  {
    hide Granted;
  }

  lemma {:induction false} HalfOpenIsProbing(c: Config, es: seq<Event>)
    requires Usable(c)
    ensures es != [] && Run(c, es).state == HalfOpen ==> Probing(c, es)
    ensures Run(c, es) == BEGIN || es != []
  {
    if es != [] && Run(c, es).state == HalfOpen {
      var n := |es| - 1;
      var prior := Run(c, es[..n]);
      HalfOpenIsProbing(c, es[..n]);
      OneMoreEvent(c, es, Entered(c, es));
      if n > 0 && prior.state == HalfOpen {
        assert Entered(c, es) == Entered(c, es[..n]);
        assert Probing(c, es[..n]);
      } else {
        OneEvent(c, es, n);
        assert prior.state == Open;
      }
    }
  }

  /** Every closing other than a reset ends a half-open period in which exactly the threshold of successes and no
      failure were reported, whatever had been let through. */
  lemma {:induction false} ClosingTakesSuccesses(c: Config, es: seq<Event>)
    requires Usable(c) && es != [] && !es[|es|-1].ForceReset?
    requires Run(c, es[..|es|-1]).state != Closed && Run(c, es).state == Closed
    ensures Results(es, Entered(c, es), true) == c.successThreshold && Results(es, Entered(c, es), false) == 0
    ensures Run(c, es).failure == 0
  {
    var n := |es| - 1;
    var prior := Run(c, es[..n]);
    HalfOpenIsProbing(c, es[..n]);
    OneMoreEvent(c, es, Entered(c, es));
    if prior.state == HalfOpen {
      assert n > 0;
      assert Entered(c, es) == Entered(c, es[..n]);
    } else {
      OneEvent(c, es, n);
    }
  }

  /** In a half-open period no more requests are let through than the limit plus the results reported in it. */
  lemma {:induction false} ProbesAreLimited(c: Config, es: seq<Event>)
    requires Usable(c) && es != [] && Run(c, es).state == HalfOpen
    ensures GrantCount(c, es, Entered(c, es)) <= c.maxHalfOpenReqs + Results(es, Entered(c, es), true)
    ensures Results(es, Entered(c, es), false) == 0
  {
    HalfOpenIsProbing(c, es);
  }

  /** A failure reported while half-open reopens the breaker for a whole timeout. */
  lemma {:induction false} ProbeFailureReopens(c: Config, es: seq<Event>, now: int, more: seq<Event>)
    requires Usable(c) && Run(c, es).state == HalfOpen
    requires forall e :: e in more ==> !e.ForceReset? && now <= e.now < now + c.timeout
    ensures var all := es + [Result(now, false)] + more;
      Run(c, all).state == Open && GrantCount(c, all, |es| + 1) == 0
  {
    var failed := es + [Result(now, false)];
    assert failed[..|es|] == es;
    OpenGrantsNothing(c, failed, more);
  }

  // ------------------------------------------------------------------
  // Results are counted whoever sent the request
  // ------------------------------------------------------------------

  /** So many successes reported so far, none of them to a request in flight. */
  predicate Probed(c: Config, b: Breaker, now: int, n: nat) {
    || (n == 0 && b.state == Open && now - b.openedAt >= c.timeout)
    || (n < c.successThreshold && b.state == HalfOpen && b.success == n && b.inflight == 0)
  }

  lemma {:induction false} SuccessCounts(c: Config, b: Breaker, now: int, n: nat)
    requires Usable(c) && Probed(c, b, now, n)
    ensures var r := Reported(c, b, now, true);
      if n + 1 < c.successThreshold then Probed(c, r, now, n + 1) && r.state == HalfOpen else r.state == Closed
  {
  }

  lemma {:induction false} ProbeIsGranted(c: Config, b: Breaker, now: int, n: nat)
    requires Usable(c) && Probed(c, b, now, n)
    ensures Grants(c, b, now)
    ensures var a := Allowed(c, b, now);
      && a.state == HalfOpen
      && var r := Reported(c, a, now, true);
         if n + 1 < c.successThreshold then Probed(c, r, now, n + 1) && r.state == HalfOpen else r.state == Closed
  {
  }

  lemma {:induction false} RunSnoc(c: Config, es: seq<Event>, e: Event)
    ensures Run(c, es + [e]) == Apply(c, Run(c, es), e)
  {
    assert (es + [e])[..|es|] == es;
    hide Apply;
  }

  lemma {:induction false} GrantSnoc(c: Config, es: seq<Event>, e: Event, h: nat)
    requires h <= |es|
    ensures GrantCount(c, es + [e], h)
         == GrantCount(c, es, h) + (if e.Allow? && Grants(c, Run(c, es), e.now) then 1 else 0)
  {
    assert (es + [e])[..|es|] == es;
    hide Run, Grants;
  }

  function Successes(now: int, n: nat): seq<Event> {
    if n == 0 then [] else Successes(now, n - 1) + [Result(now, true)]
  }

  /** Requests let through before the breaker opened, answered once its time is up, can close it without a single probe,
      whatever the threshold. */
  lemma {:induction false} LateAnswersClose(c: Config, es: seq<Event>, now: int)
    requires Usable(c) && Run(c, es).state == Open && now - Run(c, es).openedAt >= c.timeout
    ensures var all := es + Successes(now, c.successThreshold);
      Run(c, all).state == Closed && GrantCount(c, all, |es|) == 0
  {
    var n := c.successThreshold - 1;
    SomeLateAnswers(c, es, now, n);
    var late := es + Successes(now, n);
    assert es + Successes(now, n + 1) == late + [Result(now, true)];
    RunSnoc(c, late, Result(now, true));
    GrantSnoc(c, late, Result(now, true), |es|);
    SuccessCounts(c, Run(c, late), now, n);
    hide Reported, Run, Probed;
  }

  lemma {:induction false} SomeLateAnswers(c: Config, es: seq<Event>, now: int, n: nat)
    requires Usable(c) && Run(c, es).state == Open && now - Run(c, es).openedAt >= c.timeout && n < c.successThreshold
    ensures Probed(c, Run(c, es + Successes(now, n)), now, n) && GrantCount(c, es + Successes(now, n), |es|) == 0
  {
    if n == 0 {
      assert es + [] == es;
    } else {
      SomeLateAnswers(c, es, now, n - 1);
      var late := es + Successes(now, n - 1);
      assert es + Successes(now, n) == late + [Result(now, true)];
      RunSnoc(c, late, Result(now, true));
      GrantSnoc(c, late, Result(now, true), |es|);
      SuccessCounts(c, Run(c, late), now, n - 1);
      hide Reported, Run, Probed;
    }
  }

  // ------------------------------------------------------------------
  // How many probes closing takes
  // ------------------------------------------------------------------

  /** Every result at k answers the request let through at asked[k], and no request is answered twice. The breaker does
      not look at this. */
  predicate Answering(c: Config, es: seq<Event>, asked: seq<nat>) {
    && |asked| == |es|
    && (forall k :: 0 <= k < |es| && es[k].Result? ==> asked[k] < k && Granted(c, es, asked[k]))
    && (forall j, k :: 0 <= j < k < |es| && es[j].Result? && es[k].Result? ==> asked[j] != asked[k])
  }

  /** The success at k answers a request from before h. */
  predicate IsLate(es: seq<Event>, asked: seq<nat>, h: nat, k: nat)
    requires k < |es| == |asked|
  {
    es[k].Result? && es[k].ok && asked[k] < h
  }

  predicate IsTimely(es: seq<Event>, asked: seq<nat>, h: nat, k: nat)
    requires k < |es| == |asked|
  {
    es[k].Result? && es[k].ok && asked[k] >= h
  }

  /** How many of the successes from h on answer requests from before h. */
  function LateCount(es: seq<Event>, asked: seq<nat>, h: nat): nat
    requires h <= |es| == |asked|
  {
    if |es| == h then 0
    else LateCount(es[..|es|-1], asked[..|es|-1], h) + (if IsLate(es, asked, h, |es|-1) then 1 else 0)
  }

  ghost function GrantsFrom(c: Config, es: seq<Event>, h: nat): set<nat> { set k | h <= k < |es| && Granted(c, es, k) }

  /** The requests that the timely successes from h on answer. */
  function AnsweredFrom(es: seq<Event>, asked: seq<nat>, h: nat): set<nat>
    requires h <= |es| == |asked|
  {
    if |es| == h then {}
    else
      AnsweredFrom(es[..|es|-1], asked[..|es|-1], h) + (if IsTimely(es, asked, h, |es|-1) then {asked[|es|-1]} else {})
  }

  lemma {:induction false} AnsweredFromMember(es: seq<Event>, asked: seq<nat>, h: nat, r: nat)
    requires h <= |es| == |asked| && r in AnsweredFrom(es, asked, h)
    ensures exists k :: h <= k < |es| && IsTimely(es, asked, h, k) && asked[k] == r
  {
    var n := |es| - 1;
    if r in AnsweredFrom(es[..n], asked[..n], h) {
      AnsweredFromMember(es[..n], asked[..n], h, r);
      var k :| h <= k < n && IsTimely(es[..n], asked[..n], h, k) && asked[..n][k] == r;
      assert IsTimely(es, asked, h, k);
    } else {
      assert IsTimely(es, asked, h, n);
    }
  }

  lemma {:induction false} GrantsFromSize(c: Config, es: seq<Event>, h: nat)
    requires h <= |es|
    ensures |GrantsFrom(c, es, h)| == GrantCount(c, es, h)
  {
    if |es| == h {
      assert GrantsFrom(c, es, h) == {};
    } else {
      var n := |es| - 1;
      GrantsFromSize(c, es[..n], h);
      forall k | 0 <= k < n ensures Granted(c, es[..n], k) == Granted(c, es, k) {
        assert es[..n][..k] == es[..k];
      }
      hide Granted;
      assert GrantsFrom(c, es, h) == GrantsFrom(c, es[..n], h) + if Granted(c, es, n) then {n} else {};
    }
  }

  /** As many requests of the period are answered as timely successes are counted. */
  lemma {:induction false} AnsweredFromSize(c: Config, es: seq<Event>, asked: seq<nat>, h: nat)
    requires h <= |es| && Answering(c, es, asked)
    ensures |AnsweredFrom(es, asked, h)| + LateCount(es, asked, h) == Results(es, h, true)
  {
    if |es| > h {
      var n := |es| - 1;
      AnsweringPrefix(c, es, asked);
      AnsweredFromSize(c, es[..n], asked[..n], h);
      if IsTimely(es, asked, h, n) && asked[n] in AnsweredFrom(es[..n], asked[..n], h) {
        AnsweredFromMember(es[..n], asked[..n], h, asked[n]);
        assert false;
      }
      hide Granted, Answering;
    }
  }

  lemma {:induction false} AnsweredWereGranted(c: Config, es: seq<Event>, asked: seq<nat>, h: nat)
    requires h <= |es| && Answering(c, es, asked)
    ensures AnsweredFrom(es, asked, h) <= GrantsFrom(c, es, h)
  {
    forall r | r in AnsweredFrom(es, asked, h) ensures r in GrantsFrom(c, es, h) {
      AnsweredFromMember(es, asked, h, r);
      hide AnsweredFrom, Granted;
    }
  }

  lemma {:induction false} AnsweringPrefix(c: Config, es: seq<Event>, asked: seq<nat>)
    requires Answering(c, es, asked) && es != []
    ensures Answering(c, es[..|es|-1], asked[..|es|-1])
  {
    var n := |es| - 1;
    forall k | 0 <= k < n ensures Granted(c, es[..n], k) == Granted(c, es, k) {
      assert es[..n][..k] == es[..k];
    }
    hide Granted;
  }

  /** However requests and results are matched, a half-open period that closes has let through at least as many requests
      as the threshold exceeds the late answers counted in it. */
  lemma {:induction false} ClosingNeedsProbes(c: Config, es: seq<Event>, asked: seq<nat>)
    requires Usable(c) && es != [] && !es[|es|-1].ForceReset? && Answering(c, es, asked)
    requires Run(c, es[..|es|-1]).state != Closed && Run(c, es).state == Closed
    ensures GrantCount(c, es, Entered(c, es)) >= c.successThreshold - LateCount(es, asked, Entered(c, es))
  {
    var h := Entered(c, es);
    ClosingTakesSuccesses(c, es);
    hide Run, Entered, Results, LateCount, GrantCount;
    GrantsFromSize(c, es, h);
    AnsweredFromSize(c, es, asked, h);
    AnsweredWereGranted(c, es, asked, h);
    hide AnsweredFrom, GrantsFrom;
    SubsetSize(AnsweredFrom(es, asked, h), GrantsFrom(c, es, h));
  }

  /** The request was let through and has no answer. */
  predicate Unanswered(c: Config, es: seq<Event>, asked: seq<nat>, r: nat) {
    && |asked| == |es| && r < |es| && Granted(c, es, r)
    && forall k :: 0 <= k < |es| && es[k].Result? ==> asked[k] != r
  }

  /** A half-open period that began at h, with n successes and g probes. */
  predicate Period(c: Config, es: seq<Event>, h: nat, g: nat) {
    && h <= |es| && GrantCount(c, es, h) == g
    && (if |es| == h then Run(c, es).state == Open else Run(c, es).state != Open && Entered(c, es) == h)
  }

  lemma {:induction false} PeriodGoesOn(c: Config, es: seq<Event>, h: nat, g: nat, e: Event)
    requires Period(c, es, h, g) && (|es| > h ==> Run(c, es).state == HalfOpen) && Run(c, es + [e]).state != Open
    ensures Period(c, es + [e], h, g + if e.Allow? && Grants(c, Run(c, es), e.now) then 1 else 0)
  {
    GrantSnoc(c, es, e, h);
    assert (es + [e])[..|es|] == es;
    hide Grants, Apply, GrantCount;
  }

  lemma {:induction false} GrantedStays(c: Config, es: seq<Event>, e: Event, k: nat)
    requires k < |es|
    ensures Granted(c, es + [e], k) == Granted(c, es, k)
  {
    assert (es + [e])[..k] == es[..k];
    hide Run, Grants;
  }

  lemma {:induction false} AnsweringSnoc(c: Config, es: seq<Event>, asked: seq<nat>, e: Event, r: nat)
    requires Answering(c, es, asked) && (e.Result? ==> Unanswered(c, es, asked, r))
    ensures Answering(c, es + [e], asked + [r])
  {
    forall k | 0 <= k < |es| ensures Granted(c, es + [e], k) == Granted(c, es, k) {
      GrantedStays(c, es, e, k);
    }
    hide Granted;
    assert (es + [e])[..|es|] == es && (asked + [r])[..|es|] == asked;
  }

  lemma {:induction false} LateSnoc(es: seq<Event>, asked: seq<nat>, e: Event, r: nat, h: nat)
    requires h <= |es| == |asked|
    ensures LateCount(es + [e], asked + [r], h)
         == LateCount(es, asked, h) + (if e.Result? && e.ok && r < h then 1 else 0)
  {
    assert (es + [e])[..|es|] == es && (asked + [r])[..|es|] == asked;
  }

  lemma {:induction false} UnansweredSnoc(c: Config, es: seq<Event>, asked: seq<nat>, e: Event, r: nat, q: nat)
    requires Unanswered(c, es, asked, q) && (e.Result? ==> q != r)
    ensures Unanswered(c, es + [e], asked + [r], q)
  {
    GrantedStays(c, es, e, q);
    hide Granted;
  }

  /** Closing is under way: after h, n successes, l of them late, and g probes. */
  predicate Underway(c: Config, es: seq<Event>, asked: seq<nat>, h: nat, now: int, n: nat, l: nat, g: nat) {
    Answering(c, es, asked) && Period(c, es, h, g) && LateCount(es, asked, h) == l && Probed(c, Run(c, es), now, n)
  }

  /** Closing is done. */
  predicate ClosedBy(c: Config, es: seq<Event>, asked: seq<nat>, h: nat, l: nat, g: nat) {
    && Answering(c, es, asked) && Period(c, es, h, g) && LateCount(es, asked, h) == l
    && |es| > h && Run(c, es).state == Closed && Run(c, es[..|es|-1]).state != Closed
  }

  /** A late answer. */
  lemma {:induction false} LateStep(c: Config, es: seq<Event>, asked: seq<nat>, h: nat, now: int, n: nat, l: nat,
                                    g: nat, r: nat)
    requires Usable(c) && Underway(c, es, asked, h, now, n, l, g) && Unanswered(c, es, asked, r) && r < h
    ensures var es', asked' := es + [Result(now, true)], asked + [r];
      if n + 1 < c.successThreshold then Underway(c, es', asked', h, now, n + 1, l + 1, g)
      else ClosedBy(c, es', asked', h, l + 1, g)
  {
    var e := Result(now, true);
    AnsweringSnoc(c, es, asked, e, r);
    LateSnoc(es, asked, e, r, h);
    RunSnoc(c, es, e);
    SuccessCounts(c, Run(c, es), now, n);
    assert (es + [e])[..|es|] == es;
    hide Answering, Unanswered, LateCount, Run, GrantCount, Entered, Reported;
    PeriodGoesOn(c, es, h, g, e);
    hide Period;
  }

  /** A probe and its answer. */
  lemma {:induction false} ProbeStep(c: Config, es: seq<Event>, asked: seq<nat>, h: nat, now: int, n: nat, l: nat,
                                     g: nat)
    requires Usable(c) && Underway(c, es, asked, h, now, n, l, g)
    ensures var es', asked' := es + [Allow(now), Result(now, true)], asked + [0, |es|];
      if n + 1 < c.successThreshold then Underway(c, es', asked', h, now, n + 1, l, g + 1)
      else ClosedBy(c, es', asked', h, l, g + 1)
  {
    var ask, e := Allow(now), Result(now, true);
    var es1, asked1 := es + [ask], asked + [0];
    ProbeIsGranted(c, Run(c, es), now, n);
    RunSnoc(c, es, ask);
    RunSnoc(c, es1, e);
    AnsweringSnoc(c, es, asked, ask, 0);
    LateSnoc(es, asked, ask, 0, h);
    LateSnoc(es1, asked1, e, |es|, h);
    assert es1[..|es|] == es && (es1 + [e])[..|es1|] == es1;
    assert es1 + [e] == es + [ask, e] && asked1 + [|es|] == asked + [0, |es|];
    JustAsked(c, es, asked, now);
    AnsweringSnoc(c, es1, asked1, e, |es|);
    hide Answering, Unanswered, LateCount, Run, GrantCount, Entered, Reported, Allowed, Grants;
    PeriodGoesOn(c, es, h, g, ask);
    PeriodGoesOn(c, es1, h, g + 1, e);
    hide Period;
  }

  lemma {:induction false} JustAsked(c: Config, es: seq<Event>, asked: seq<nat>, now: int)
    requires Answering(c, es, asked) && Grants(c, Run(c, es), now)
    ensures Unanswered(c, es + [Allow(now)], asked + [0], |es|)
  {
    var es' := es + [Allow(now)];
    assert es'[..|es|] == es;
    hide Run, Grants;
    forall k | 0 <= k < |es'| && es'[k].Result? ensures (asked + [0])[k] != |es| {
      assert es'[k] == es[k];
    }
  }

  /** The requests in late are answered, in order. */
  lemma {:induction false} AnswerLate(c: Config, es: seq<Event>, asked: seq<nat>, h: nat, now: int, n: nat,
                                      late: seq<nat>)
    returns (all: seq<Event>, asked': seq<nat>)
    requires Usable(c) && Underway(c, es, asked, h, now, n, n, 0) && |late| > 0 && n + |late| <= c.successThreshold
    requires NoRepeats(late) && forall r :: r in late ==> r < h && Unanswered(c, es, asked, r)
    ensures es <= all
    ensures if n + |late| < c.successThreshold then Underway(c, all, asked', h, now, n + |late|, n + |late|, 0)
            else ClosedBy(c, all, asked', h, n + |late|, 0)
    decreases |late|
  {
    var e, rest := Result(now, true), late[1..];
    assert late == [late[0]] + rest && late[0] in late;
    LateStep(c, es, asked, h, now, n, n, 0, late[0]);
    all, asked' := es + [e], asked + [late[0]];
    if rest != [] {
      forall r | r in rest ensures r < h && Unanswered(c, all, asked', r) {
        assert r in late && r != late[0];
        UnansweredSnoc(c, es, asked, e, late[0], r);
      }
      hide Underway, ClosedBy, Unanswered;
      all, asked' := AnswerLate(c, all, asked', h, now, n + 1, rest);
    }
  }

  /** Probes are sent and answered one by one until the breaker closes. */
  lemma {:induction false} ProbeOn(c: Config, es: seq<Event>, asked: seq<nat>, h: nat, now: int, n: nat, l: nat)
    returns (all: seq<Event>, asked': seq<nat>)
    requires Usable(c) && l <= n < c.successThreshold && Underway(c, es, asked, h, now, n, l, n - l)
    ensures es <= all && ClosedBy(c, all, asked', h, l, c.successThreshold - l)
    decreases c.successThreshold - n
  {
    ProbeStep(c, es, asked, h, now, n, l, n - l);
    all, asked' := es + [Allow(now), Result(now, true)], asked + [0, |es|];
    hide Underway, ClosedBy;
    if n + 1 < c.successThreshold {
      all, asked' := ProbeOn(c, all, asked', h, now, n + 1, l);
    }
  }

  /** That many are enough: an open breaker whose time is up, with any choice of requests still unanswered, can close
      with exactly those answered late and as many probes as the threshold exceeds them. */
  lemma {:induction false} ClosingWithFewestProbes(c: Config, es: seq<Event>, asked: seq<nat>, now: int, late: seq<nat>)
    returns (all: seq<Event>, asked': seq<nat>)
    requires Usable(c) && Answering(c, es, asked) && Run(c, es).state == Open && now - Run(c, es).openedAt >= c.timeout
    requires NoRepeats(late) && |late| <= c.successThreshold && forall r :: r in late ==> Unanswered(c, es, asked, r)
    ensures es <= all && Answering(c, all, asked')
    ensures Run(c, all).state == Closed && |all| > |es| && Run(c, all[..|all|-1]).state != Closed
    ensures Entered(c, all) == |es|
    ensures LateCount(all, asked', |es|) == |late| && GrantCount(c, all, |es|) == c.successThreshold - |late|
  {
    all, asked' := es, asked;
    assert Underway(c, es, asked, |es|, now, 0, 0, 0);
    hide Answering, Unanswered;
    if late != [] {
      all, asked' := AnswerLate(c, es, asked, |es|, now, 0, late);
    }
    if |late| < c.successThreshold {
      all, asked' := ProbeOn(c, all, asked', |es|, now, |late|, |late|);
    }
  }

  // ------------------------------------------------------------------
  // The object
  // ------------------------------------------------------------------

  // ------------------------------------------------------------------
  // Which requests are let through
  // ------------------------------------------------------------------

  /** Failures reported since the last success or reset. */
  function FailStreak(es: seq<Event>): nat {
    if es == [] then 0
    else
      var e, n := es[|es|-1], FailStreak(es[..|es|-1]);
      if e.ForceReset? || (e.Result? && e.ok) then 0 else if e.Result? then n + 1 else n
  }

  /** Nobody has forced the breaker open, and no streak of failures was as long as the threshold. */
  predicate Healthy(c: Config, es: seq<Event>) {
    es == [] || (Healthy(c, es[..|es|-1]) && !es[|es|-1].ForceOpen? && FailStreak(es) < c.failureThreshold)
  }

  function AskCount(es: seq<Event>): nat {
    if es == [] then 0 else AskCount(es[..|es|-1]) + (if es[|es|-1].Allow? then 1 else 0)
  }

  predicate AlwaysClosed(c: Config, es: seq<Event>) { forall k :: 0 <= k <= |es| ==> Run(c, es[..k]).state == Closed }

  lemma {:induction false} ClosedStep(c: Config, b: Breaker, e: Event)
    requires Usable(c) && b.state == Closed
    ensures Apply(c, b, e).state == Closed <==>
            !e.ForceOpen? && (e.Result? && !e.ok ==> b.failure + 1 < c.failureThreshold)
    ensures Apply(c, b, e).state == Closed ==>
      Apply(c, b, e).failure ==
        if e.ForceReset? || (e.Result? && e.ok) then 0 else if e.Result? then b.failure + 1 else b.failure
    ensures e.Allow? ==> Grants(c, b, e.now)
  {
  }

  lemma {:induction false} AlwaysClosedPrefix(c: Config, es: seq<Event>)
    requires es != []
    ensures AlwaysClosed(c, es) <==> AlwaysClosed(c, es[..|es|-1]) && Run(c, es).state == Closed
  {
    var n := |es| - 1;
    hide Run;
    assert es[..n + 1] == es;
    if AlwaysClosed(c, es) {
      forall k | 0 <= k <= n ensures Run(c, es[..n][..k]).state == Closed {
        assert es[..n][..k] == es[..k];
      }
    }
    if AlwaysClosed(c, es[..n]) && Run(c, es).state == Closed {
      forall k | 0 <= k <= n ensures Run(c, es[..k]).state == Closed {
        assert es[..n][..k] == es[..k];
      }
    }
  }

  /** A breaker never leaves the closed state if and only if it is not forced open and no streak of failures reaches the
      threshold; all that while it lets every request through. */
  lemma {:induction false} StaysClosedExactlyWhen(c: Config, es: seq<Event>)
    requires Usable(c)
    ensures AlwaysClosed(c, es) <==> Healthy(c, es)
    ensures Healthy(c, es) ==> GrantCount(c, es, 0) == AskCount(es) && Run(c, es).failure == FailStreak(es)
  {
    if es != [] {
      var n := |es| - 1;
      StaysClosedExactlyWhen(c, es[..n]);
      AlwaysClosedPrefix(c, es);
      assert AlwaysClosed(c, es[..n]) ==> Run(c, es[..n][..n]).state == Closed && es[..n][..n] == es[..n];
      if AlwaysClosed(c, es[..n]) {
        ClosedStep(c, Run(c, es[..n]), es[n]);
      }
      hide Apply, Grants, AlwaysClosed, Healthy;
    }
  }

  /** The last event opens the breaker, or is a failure that keeps it open for longer. */
  predicate Opens(c: Config, es: seq<Event>)
    requires es != []
  {
    var n := |es| - 1;
    Run(c, es).state == Open && (Run(c, es[..n]).state != Open || (es[n].Result? && !es[n].ok))
  }

  function LastOpening(c: Config, es: seq<Event>): (k: nat)
    requires Run(c, es).state == Open
    ensures k < |es|
  {
    if Opens(c, es) then |es| - 1 else LastOpening(c, es[..|es|-1])
  }

  lemma {:induction false} OpenStep(c: Config, b: Breaker, e: Event)
    requires Apply(c, b, e).state == Open
    ensures Apply(c, b, e).openedAt == if b.state != Open || (e.Result? && !e.ok) then e.now else b.openedAt
  {
  }

  lemma {:induction false} OpenedAtLastOpening(c: Config, es: seq<Event>)
    requires Run(c, es).state == Open
    ensures Run(c, es).openedAt == es[LastOpening(c, es)].now
  {
    var n := |es| - 1;
    OpenStep(c, Run(c, es[..n]), es[n]);
    if !Opens(c, es) {
      OpenedAtLastOpening(c, es[..n]);
    }
    hide Apply;
  }

  /** Requests let through from h on and not yet answered, were every result an answer to one of them. */
  function Outstanding(c: Config, es: seq<Event>, h: nat): nat
    requires h <= |es|
  {
    if |es| == h then 0
    else
      var n, k := Outstanding(c, es[..|es|-1], h), |es| - 1;
      if Granted(c, es, k) then n + 1 else if es[k].Result? && n > 0 then n - 1 else n
  }

  lemma {:induction false} ProbingStep(c: Config, b: Breaker, e: Event)
    requires Usable(c) && b.state == HalfOpen && b.inflight >= 0 && Apply(c, b, e).state == HalfOpen
    ensures Apply(c, b, e).inflight ==
      if e.Allow? && Grants(c, b, e.now) then b.inflight + 1
      else if e.Result? && b.inflight > 0 then b.inflight - 1 else b.inflight
  {
  }

  lemma {:induction false} FirstStep(c: Config, b: Breaker, e: Event)
    requires Usable(c) && b.state != HalfOpen && Apply(c, b, e).state == HalfOpen
    ensures Apply(c, b, e).inflight == if e.Allow? && Grants(c, b, e.now) then 1 else 0
  {
  }

  lemma {:induction false} InflightIsOutstanding(c: Config, es: seq<Event>)
    requires Usable(c) && es != [] && Run(c, es).state == HalfOpen
    ensures Run(c, es).inflight == Outstanding(c, es, Entered(c, es))
  {
    var n := |es| - 1;
    if n > 0 && Run(c, es[..n]).state == HalfOpen {
      InflightIsOutstanding(c, es[..n]);
      ProbingStep(c, Run(c, es[..n]), es[n]);
    } else {
      assert Run(c, es[..n]).state != HalfOpen;
      assert Outstanding(c, es[..n], n) == 0;
      FirstStep(c, Run(c, es[..n]), es[n]);
    }
    hide Apply, Grants;
  }

  /** A request is let through if and only if the breaker is closed, or open with its timeout passed since the event
      that opened it last, or half-open with fewer requests outstanding in this period than the limit. */
  lemma {:induction false} GrantedExactlyWhen(c: Config, es: seq<Event>, now: int)
    requires Usable(c)
    ensures Grants(c, Run(c, es), now) <==>
      match Run(c, es).state
      case Closed => true
      case Open => now - es[LastOpening(c, es)].now >= c.timeout
      case HalfOpen => es != [] && Outstanding(c, es, Entered(c, es)) < c.maxHalfOpenReqs
  {
    if Run(c, es).state == Open {
      OpenedAtLastOpening(c, es);
    } else if Run(c, es).state == HalfOpen {
      InflightIsOutstanding(c, es);
    }
    hide Run, LastOpening, Outstanding, Entered;
  }

  /** Forced open, a breaker that was not open lets nothing through for a whole timeout. */
  lemma {:induction false} ForceOpenStops(c: Config, es: seq<Event>, now: int, more: seq<Event>)
    requires Usable(c) && Run(c, es).state != Open
    requires forall e :: e in more ==> !e.ForceReset? && now <= e.now < now + c.timeout
    ensures var all := es + [ForceOpen(now)] + more;
      Run(c, all).state == Open && GrantCount(c, all, |es| + 1) == 0
  {
    RunSnoc(c, es, ForceOpen(now));
    OpenGrantsNothing(c, es + [ForceOpen(now)], more);
  }

  /** Reset, a breaker in whatever state goes on as a new one does, except that it remembers when it opened last. */
  lemma {:induction false} ResetStartsAfresh(c: Config, es: seq<Event>, now: int, more: seq<Event>)
    requires Usable(c)
    ensures var b := Run(c, es + [ForceReset(now)] + more);
      b == Run(c, more).(openedAt := b.openedAt) && (b.state == Open ==> b.openedAt == Run(c, more).openedAt)
    ensures GrantCount(c, es + [ForceReset(now)] + more, |es| + 1) == GrantCount(c, more, 0)
    decreases |more|
  {
    hide Run, GrantCount, Grants, Apply;
    var reset := es + [ForceReset(now)];
    if more == [] {
      JustReset(c, es, now);
      assert reset + more == reset;
    } else {
      var n := |more| - 1;
      ResetStartsAfresh(c, es, now, more[..n]);
      assert reset + more == reset + more[..n] + [more[n]] && more[..n] + [more[n]] == more;
      RunSnoc(c, reset + more[..n], more[n]);
      GrantSnoc(c, reset + more[..n], more[n], |es| + 1);
      RunSnoc(c, more[..n], more[n]);
      GrantSnoc(c, more[..n], more[n], 0);
      AlikeStep(c, Run(c, more[..n]), Run(c, reset + more[..n]), more[n]);
    }
  }

  lemma {:induction false} JustReset(c: Config, es: seq<Event>, now: int)
    ensures var b := Run(c, es + [ForceReset(now)]); b == Run(c, []).(openedAt := b.openedAt) && b.state == Closed
    ensures GrantCount(c, es + [ForceReset(now)], |es| + 1) == GrantCount(c, [], 0)
  {
    RunSnoc(c, es, ForceReset(now));
  }

  /** When a breaker opened last matters only while it is open. */
  lemma {:induction false} AlikeStep(c: Config, a: Breaker, b: Breaker, e: Event)
    requires b == a.(openedAt := b.openedAt) && (b.state == Open ==> b.openedAt == a.openedAt)
    ensures var x, y := Apply(c, a, e), Apply(c, b, e);
      y == x.(openedAt := y.openedAt) && (y.state == Open ==> y.openedAt == x.openedAt)
    ensures e.Allow? ==> Grants(c, a, e.now) == Grants(c, b, e.now)
  {
  }

  class CircuitBreaker {
    const cfg: Config
    var state: State
    var failure: int
    var success: int
    var inflight: int
    var openedAt: int

    constructor (c: Config)
      ensures cfg == ApplyDefaults(c) && Value() == BEGIN
    {
      cfg := ApplyDefaults(c);
      state, failure, success, inflight, openedAt := Closed, 0, 0, 0, 0;
    }

    function Value(): Breaker
      reads this
    {
      Breaker(state, failure, success, inflight, openedAt)
    }

    method Transition(next: State, now: int)
      modifies this`state, this`openedAt
      ensures state == next
      ensures openedAt == if next == Open && old(state) != Open then now else old(openedAt)
    {
      if state == next {
        return;
      }
      state := next;
      if next == Open {
        openedAt := now;
      }
    }

    method TickState(now: int)
      modifies this
      ensures Value() == Ticked(cfg, old(Value()), now)
    {
      if state != Open {
        return;
      }
      if now - openedAt >= cfg.timeout {
        Transition(HalfOpen, now);
        success := 0;
        inflight := 0;
      }
    }

    method Allow(now: int) returns (granted: bool)
      modifies this
      ensures granted == Grants(cfg, old(Value()), now) && Value() == Allowed(cfg, old(Value()), now)
    {
      TickState(now);
      match state
      case Closed => granted := true;
      case Open => granted := false;
      case HalfOpen =>
        if inflight >= cfg.maxHalfOpenReqs {
          return false;
        }
        inflight := inflight + 1;
        granted := true;
    }

    method OnResult(now: int, ok: bool)
      modifies this
      ensures Value() == Reported(cfg, old(Value()), now, ok)
    {
      TickState(now);
      match state
      case Closed =>
        if ok {
          failure := 0;
          return;
        }
        failure := failure + 1;
        if failure >= cfg.failureThreshold {
          Transition(Open, now);
        }
      case Open =>
        if !ok {
          openedAt := now;
        }
      case HalfOpen =>
        if inflight > 0 {
          inflight := inflight - 1;
        }
        if !ok {
          Transition(Open, now);
          success := 0;
          return;
        }
        success := success + 1;
        if success >= cfg.successThreshold {
          Transition(Closed, now);
          failure := 0;
          success := 0;
          inflight := 0;
        }
    }

    method ForceOpen(now: int)
      modifies this
      ensures Value() == ForcedOpen(old(Value()), now)
    {
      Transition(Open, now);
    }

    method ForceReset(now: int)
      modifies this
      ensures Value() == ForcedReset(old(Value()))
    {
      Transition(Closed, now);
      failure := 0;
      success := 0;
      inflight := 0;
    }
  }
}
