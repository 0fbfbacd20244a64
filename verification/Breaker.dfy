/** The circuit breaker (internal/circuit/breaker.go). */
module Breaker {
  datatype Mode = Closed | Open | HalfOpen

  datatype State = State(mode: Mode, failures: int, openedAt: int)

  const INITIAL: State := State(Closed, 0, 0)

  function Allow(b: State, cooldown: int, now: int): (State, bool) {
    match b.mode
    case Closed => (b, true)
    case Open => if now - b.openedAt >= cooldown then (b.(mode := HalfOpen), true) else (b, false)
    case HalfOpen => (b, false)
  }

  function Record(b: State, threshold: int, status: int, now: int): State {
    if status >= 500 then
      var failures := b.failures + 1;
      if failures >= threshold then State(Open, failures, now) else b.(failures := failures)
    else
      State(Closed, 0, b.openedAt)
  }

  class CircuitBreaker {
    const threshold: int
    const cooldown: int
    var mode: Mode
    var failures: int
    var openedAt: int

    function View(): State
      reads this
    {
      State(mode, failures, openedAt)
    }

    constructor (threshold: int, cooldown: int)
      ensures this.threshold == threshold && this.cooldown == cooldown && View() == INITIAL
    {
      this.threshold, this.cooldown := threshold, cooldown;
      mode, failures, openedAt := Closed, 0, 0;
    }

    method AllowRequest(now: int) returns (ok: bool)
      modifies this
      ensures View() == Allow(old(View()), cooldown, now).0
      ensures ok == Allow(old(View()), cooldown, now).1
    {
      match mode
      case Closed => return true;
      case Open =>
        if now - openedAt >= cooldown {
          mode := HalfOpen;
          return true;
        }
        return false;
      case HalfOpen => return false;
    }

    method RecordStatus(status: int, now: int)
      modifies this
      ensures View() == Record(old(View()), threshold, status, now)
    {
      if status >= 500 {
        failures := failures + 1;
        if failures >= threshold {
          mode := Open;
          openedAt := now;
        }
      } else {
        failures := 0;
        mode := Closed;
      }
    }
  }

  // ----- traces -----

  /** Requests ask and responses report in any order: a response may come long after its request. */
  datatype Event = Ask(at: int) | Report(status: int, at: int)

  predicate IsFailure(e: Event) {
    e.Report? && e.status >= 500
  }

  predicate IsSuccess(e: Event) {
    e.Report? && e.status < 500
  }

  function Step(b: State, threshold: int, cooldown: int, e: Event): State {
    match e
    case Ask(at) => Allow(b, cooldown, at).0
    case Report(status, at) => Record(b, threshold, status, at)
  }

  function Run(b: State, threshold: int, cooldown: int, events: seq<Event>): State
    decreases |events|
  {
    if events == [] then b
    else Step(Run(b, threshold, cooldown, events[..|events| - 1]), threshold, cooldown, events[|events| - 1])
  }

  /** The length of the unbroken run of 5xx reports that ends the trace; requests in between do not break it. */
  function TrailingFailures(events: seq<Event>): nat
    decreases |events|
  {
    if events == [] then 0
    else
      var before := TrailingFailures(events[..|events| - 1]);
      var last := events[|events| - 1];
      if IsFailure(last) then before + 1 else if IsSuccess(last) then 0 else before
  }

  /** After any trace, the circuit is closed exactly when the trailing run of failures is below the threshold. */
  lemma {:induction false} ClosedExactlyBelowThreshold(threshold: int, cooldown: int, events: seq<Event>)
    requires threshold >= 1
    ensures var b := Run(INITIAL, threshold, cooldown, events);
            && b.failures == TrailingFailures(events)
            && (b.mode == Closed <==> TrailingFailures(events) < threshold)
    decreases |events|
  {
    if events != [] {
      ClosedExactlyBelowThreshold(threshold, cooldown, events[..|events| - 1]);
    }
  }

  /** With a threshold below 1 this fails after every success: the circuit closes with the count at 0. */
  lemma ThresholdMustBePositive(threshold: int, cooldown: int, events: seq<Event>, status: int, at: int)
    requires status < 500
    ensures var all := events + [Report(status, at)];
            (Run(INITIAL, threshold, cooldown, all).mode == Closed <==> TrailingFailures(all) < threshold)
            <==> threshold >= 1
  {
    var all := events + [Report(status, at)];
    assert all[..|all| - 1] == events;
  }

  // ----- what the trace says of the next request -----

  predicate Admits(b: State, cooldown: int, e: Event) {
    e.Ask? && Allow(b, cooldown, e.at).1
  }

  /** The last failure of the trace, if any. */
  function LastFailure(events: seq<Event>): (i: int)
    ensures -1 <= i < |events| && (i >= 0 ==> IsFailure(events[i]))
    ensures forall k | i < k < |events| :: !IsFailure(events[k])
    decreases |events|
  {
    if events == [] then -1
    else if IsFailure(events[|events| - 1]) then |events| - 1
    else LastFailure(events[..|events| - 1])
  }

  predicate AdmittedAt(threshold: int, cooldown: int, events: seq<Event>, k: nat) {
    k < |events| && Admits(Run(INITIAL, threshold, cooldown, events[..k]), cooldown, events[k])
  }

  /** A request after the given position has been let through. */
  ghost predicate AdmitsSince(threshold: int, cooldown: int, events: seq<Event>, i: int) {
    exists k: nat :: i < k && AdmittedAt(threshold, cooldown, events, k)
  }

  /** The trailing failures are too few to open the circuit, or there is none since the last success. */
  predicate BelowThreshold(threshold: int, events: seq<Event>) {
    TrailingFailures(events) == 0 || TrailingFailures(events) < threshold
  }

  /** The mode, read off the trace and the answers given: open since the last failure until a request is admitted. */
  ghost predicate ModeIs(threshold: int, cooldown: int, events: seq<Event>, b: State) {
    if BelowThreshold(threshold, events) then b.mode == Closed
    else
      var f := LastFailure(events);
      && f >= 0 && b.openedAt == events[f].at
      && b.mode == if AdmitsSince(threshold, cooldown, events, f) then HalfOpen else Open
  }

  lemma TrailingHasFailure(events: seq<Event>)
    ensures TrailingFailures(events) > 0 ==> LastFailure(events) >= 0
    decreases |events|
  {
    if events != [] {
      TrailingHasFailure(events[..|events| - 1]);
    }
  }

  lemma AdmittedEarlier(threshold: int, cooldown: int, events: seq<Event>, n: nat, k: nat)
    requires k < n <= |events|
    ensures AdmittedAt(threshold, cooldown, events[..n], k) <==> AdmittedAt(threshold, cooldown, events, k)
  {
    assert events[..n][..k] == events[..k];
  }

  lemma AdmitsSinceOneMore(threshold: int, cooldown: int, events: seq<Event>, i: int)
    requires events != [] && -1 <= i < |events| - 1
    ensures var n := |events| - 1;
            AdmitsSince(threshold, cooldown, events, i) <==>
            || AdmitsSince(threshold, cooldown, events[..n], i)
            || Admits(Run(INITIAL, threshold, cooldown, events[..n]), cooldown, events[n])
  {
    var n := |events| - 1;
    if k: nat :| i < k && AdmittedAt(threshold, cooldown, events[..n], k) {
      AdmittedEarlier(threshold, cooldown, events, n, k);
    }
    if k: nat :| i < k && AdmittedAt(threshold, cooldown, events, k) {
      if k < n {
        AdmittedEarlier(threshold, cooldown, events, n, k);
      }
    }
    if Admits(Run(INITIAL, threshold, cooldown, events[..n]), cooldown, events[n]) {
      assert AdmittedAt(threshold, cooldown, events, n);
    }
  }

  lemma {:induction false} ModeFromTrace(threshold: int, cooldown: int, events: seq<Event>)
    ensures var b := Run(INITIAL, threshold, cooldown, events);
            b.failures == TrailingFailures(events) && ModeIs(threshold, cooldown, events, b)
    decreases |events|
  {
    if events != [] {
      var n := |events| - 1;
      ModeFromTrace(threshold, cooldown, events[..n]);
      var f := LastFailure(events[..n]);
      if !IsFailure(events[n]) {
        AdmitsSinceOneMore(threshold, cooldown, events, f);
        TrailingHasFailure(events[..n]);
      }
    }
  }

  /**
    After any trace, a request at time u is let through exactly when fewer failures than the threshold have come since
    the last success (or none at all), or else when no request has been let through since the failure that last opened
    the circuit, the last one, and at least one cooldown has passed since it.
  */
  lemma AdmitsExactlyWhen(threshold: int, cooldown: int, events: seq<Event>, u: int)
    ensures Admits(Run(INITIAL, threshold, cooldown, events), cooldown, Ask(u)) <==>
            || BelowThreshold(threshold, events)
            || (var f := LastFailure(events);
                f >= 0 && !AdmitsSince(threshold, cooldown, events, f) && u - events[f].at >= cooldown)
  {
    ModeFromTrace(threshold, cooldown, events);
  }

  lemma {:induction false} RequestsDoNotCount(events: seq<Event>, more: seq<Event>)
    requires forall i | 0 <= i < |more| :: more[i].Ask?
    ensures TrailingFailures(events + more) == TrailingFailures(events)
    decreases |more|
  {
    if more == [] {
      assert events + more == events;
    } else {
      var k := |more| - 1;
      assert (events + more)[..|events + more| - 1] == events + more[..k];
      RequestsDoNotCount(events, more[..k]);
    }
  }

  /** A success, such as the probe's, closes the circuit: until the next report every request is let through. */
  lemma SuccessLetsAllThrough(threshold: int, cooldown: int, events: seq<Event>, status: int, at: int,
                              more: seq<Event>, u: int)
    requires status < 500 && forall i | 0 <= i < |more| :: more[i].Ask?
    ensures Admits(Run(INITIAL, threshold, cooldown, events + [Report(status, at)] + more), cooldown, Ask(u))
  {
    var all := events + [Report(status, at)];
    assert all[..|all| - 1] == events;
    RequestsDoNotCount(all, more);
    AdmitsExactlyWhen(threshold, cooldown, all + more, u);
  }

  lemma {:induction false} FailuresAddUp(events: seq<Event>, reports: seq<Event>)
    requires forall i | 0 <= i < |reports| :: reports[i].Report? && reports[i].status >= 500
    ensures TrailingFailures(events + reports) == TrailingFailures(events) + |reports|
    decreases |reports|
  {
    if reports == [] {
      assert events + reports == events;
    } else {
      var k := |reports| - 1;
      assert (events + reports)[..|events + reports| - 1] == events + reports[..k];
      FailuresAddUp(events, reports[..k]);
    }
  }

  /** As many failures in a row as the threshold shut the circuit for one cooldown after the last of them. */
  lemma FailuresShutOut(threshold: int, cooldown: int, events: seq<Event>, reports: seq<Event>, u: int)
    requires reports != [] && |reports| >= threshold && u - reports[|reports| - 1].at < cooldown
    requires forall i | 0 <= i < |reports| :: reports[i].Report? && reports[i].status >= 500
    ensures !Admits(Run(INITIAL, threshold, cooldown, events + reports), cooldown, Ask(u))
  {
    var all := events + reports;
    FailuresAddUp(events, reports);
    assert all[|all| - 1] == reports[|reports| - 1];
    AdmitsExactlyWhen(threshold, cooldown, all, u);
  }

  // ----- spacing of the probes -----

  ghost predicate Chronological(start: int, events: seq<Event>) {
    && (forall i | 0 <= i < |events| :: start <= events[i].at)
    && (forall i, j | 0 <= i < j < |events| :: events[i].at <= events[j].at)
  }

  function Admissions(b: State, threshold: int, cooldown: int, events: seq<Event>): nat
    decreases |events|
  {
    if events == [] then 0
    else
      var before := events[..|events| - 1];
      Admissions(b, threshold, cooldown, before)
      + if Admits(Run(b, threshold, cooldown, before), cooldown, events[|events| - 1]) then 1 else 0
  }

  function LastTime(start: int, events: seq<Event>): int {
    if events == [] then start else events[|events| - 1].at
  }

  lemma OneMore(k: int, c: int)
    ensures (k + 1) * c == k * c + c
  {
  }

  /** While no success is recorded: k admissions after the trip, it reopened no earlier than k cooldowns after it. */
  lemma {:induction false} OpenPeriodsAddUp(b: State, threshold: int, cooldown: int, trippedAt: int, events: seq<Event>)
    requires b.mode == Open && b.openedAt == trippedAt && b.failures >= threshold
    requires Chronological(trippedAt, events)
    requires forall i | 0 <= i < |events| :: !IsSuccess(events[i])
    ensures var b' := Run(b, threshold, cooldown, events);
            var k := Admissions(b, threshold, cooldown, events);
            var now := LastTime(trippedAt, events);
            && b'.mode != Closed && b'.failures >= threshold
            && (b'.mode == Open ==> trippedAt + k * cooldown <= b'.openedAt <= now)
            && (b'.mode == HalfOpen ==> trippedAt + k * cooldown <= now)
    decreases |events|
  {
    if events != [] {
      var before := events[..|events| - 1];
      OpenPeriodsAddUp(b, threshold, cooldown, trippedAt, before);
      var k := Admissions(b, threshold, cooldown, before);
      OneMore(k, cooldown);
    }
  }

  /** While a probe is out and nothing has been reported, no other request gets through. */
  lemma {:induction false} ProbeIsAlone(b: State, threshold: int, cooldown: int, events: seq<Event>)
    requires b.mode == HalfOpen && forall i | 0 <= i < |events| :: events[i].Ask?
    ensures Admissions(b, threshold, cooldown, events) == 0 && Run(b, threshold, cooldown, events) == b
    decreases |events|
  {
    if events != [] {
      ProbeIsAlone(b, threshold, cooldown, events[..|events| - 1]);
    }
  }

  predicate Trips(b: State, threshold: int, e: Event) {
    b.mode == Closed && IsFailure(e) && b.failures + 1 >= threshold
  }

  /**
    In any trace: if event i trips the circuit and no success is recorded between i and the admitted
    request j, which is the k-th one admitted since, then j comes at least k cooldowns after i.
    Failures of requests that were in flight at the trip may be recorded anywhere in between.
  */
  lemma ProbesAreSpaced(threshold: int, cooldown: int, events: seq<Event>, i: nat, j: nat)
    requires i < j < |events|
    requires forall m, n | 0 <= m < n < |events| :: events[m].at <= events[n].at
    requires Trips(Run(INITIAL, threshold, cooldown, events[..i]), threshold, events[i])
    requires Admits(Run(INITIAL, threshold, cooldown, events[..j]), cooldown, events[j])
    requires forall m | i < m < j :: !IsSuccess(events[m])
    ensures var tripped := Run(INITIAL, threshold, cooldown, events[..i + 1]);
            events[j].at >= events[i].at + Admissions(tripped, threshold, cooldown, events[i + 1..j + 1]) * cooldown
  {
    assert events[..i + 1][..i] == events[..i];
    var tripped := Run(INITIAL, threshold, cooldown, events[..i + 1]);
    var between, through := events[i + 1..j], events[i + 1..j + 1];
    assert Run(INITIAL, threshold, cooldown, events[..j]) == Run(tripped, threshold, cooldown, between) by {
      assert events[..j] == events[..i + 1] + between;
      RunSplits(INITIAL, threshold, cooldown, events[..i + 1], between);
    }
    var k := Admissions(tripped, threshold, cooldown, between);
    assert Admissions(tripped, threshold, cooldown, through) == k + 1 by {
      assert through[..|through| - 1] == between && through[|through| - 1] == events[j];
    }
    assert events[j].at >= events[i].at + k * cooldown + cooldown by {
      assert forall m | 0 <= m < |between| :: between[m] == events[i + 1 + m];
      OpenPeriodsAddUp(tripped, threshold, cooldown, events[i].at, between);
    }
    OneMore(k, cooldown);
  }

  lemma {:induction false} RunSplits(b: State, threshold: int, cooldown: int, before: seq<Event>, after: seq<Event>)
    ensures Run(b, threshold, cooldown, before + after) ==
            Run(Run(b, threshold, cooldown, before), threshold, cooldown, after)
    decreases |after|
  {
    if after == [] {
      assert before + after == before;
    } else {
      var k := |after| - 1;
      assert (before + after)[..|before + after| - 1] == before + after[..k];
      RunSplits(b, threshold, cooldown, before, after[..k]);
    }
  }
}
