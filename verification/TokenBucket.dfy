/**
  Per-client rate limiting (internal/ratelimit/limiter.go).  Tokens, rates and times are reals,
  times in seconds; the rounding of Go's float64 is not modelled.
*/
module TokenBucket {
  datatype State = State(tokens: real, capacity: real, rate: real, lastFill: real)

  function Refilled(b: State, now: real): real {
    var filled := b.tokens + (now - b.lastFill) * b.rate;
    if filled > b.capacity then b.capacity else filled
  }

  function Allow(b: State, now: real): (State, bool) {
    var t := Refilled(b, now);
    if t >= 1.0 then (b.(tokens := t - 1.0, lastFill := now), true)
    else (b.(tokens := t, lastFill := now), false)
  }

  /** Go's conversion to int: towards zero. */
  function Truncate(x: real): int {
    if x >= 0.0 then x.Floor else -((-x).Floor)
  }

  function RetryAfter(b: State): int {
    if b.rate <= 0.0 then 60 else Truncate((1.0 - b.tokens) / b.rate) + 1
  }

  ghost predicate Valid(b: State) {
    0.0 <= b.tokens <= b.capacity && b.rate >= 0.0
  }

  class Bucket {
    var tokens: real
    const capacity: real
    const rate: real
    var lastFill: real

    function View(): State
      reads this
    {
      State(tokens, capacity, rate, lastFill)
    }

    constructor (rpm: int, now: real)
      ensures View() == State(rpm as real, rpm as real, rpm as real / 60.0, now)
    {
      tokens, capacity, rate, lastFill := rpm as real, rpm as real, rpm as real / 60.0, now;
    }

    method AllowRequest(now: real) returns (ok: bool)
      modifies this
      ensures View() == Allow(old(View()), now).0
      ensures ok == Allow(old(View()), now).1
    {
      var elapsed := now - lastFill;
      tokens := tokens + elapsed * rate;
      if tokens > capacity {
        tokens := capacity;
      }
      lastFill := now;
      assert tokens == Refilled(old(View()), now);
      if tokens >= 1.0 {
        tokens := tokens - 1.0;
        return true;
      }
      return false;
    }

    method WaitHint() returns (seconds: int)
      ensures seconds == RetryAfter(View())
      ensures rate <= 0.0 ==> seconds == 60
    {
      if rate <= 0.0 {
        return 60;
      }
      return Truncate((1.0 - tokens) / rate) + 1;
    }
  }

  // ----- runs of one bucket -----

  ghost predicate Chronological(start: real, times: seq<real>) {
    && (forall i | 0 <= i < |times| :: start <= times[i])
    && (forall i, j | 0 <= i < j < |times| :: times[i] <= times[j])
  }

  function Run(b: State, times: seq<real>): State
    decreases |times|
  {
    if times == [] then b else Allow(Run(b, times[..|times| - 1]), times[|times| - 1]).0
  }

  function Admitted(b: State, times: seq<real>): nat
    decreases |times|
  {
    if times == [] then 0
    else
      var before := times[..|times| - 1];
      Admitted(b, before) + if Allow(Run(b, before), times[|times| - 1]).1 then 1 else 0
  }

  lemma RefillBounds(b: State, now: real)
    requires Valid(b) && now >= b.lastFill
    ensures 0.0 <= b.tokens <= Refilled(b, now) <= b.capacity
    ensures Refilled(b, now) <= b.tokens + b.rate * (now - b.lastFill)
  {
    Product(b.rate, now - b.lastFill);
  }

  lemma Product(x: real, y: real)
    requires x >= 0.0 && y >= 0.0
    ensures x * y >= 0.0 && x * y == y * x
  {
  }

  /** Tokens stay between 0 and the capacity, and the configuration never changes. */
  lemma {:induction false} TokensStayInBounds(b: State, times: seq<real>)
    requires Valid(b) && Chronological(b.lastFill, times)
    ensures var b' := Run(b, times);
            && Valid(b') && b'.capacity == b.capacity && b'.rate == b.rate
            && b'.lastFill == (if times == [] then b.lastFill else times[|times| - 1])
    decreases |times|
  {
    if times != [] {
      var before := times[..|times| - 1];
      TokensStayInBounds(b, before);
      RefillBounds(Run(b, before), times[|times| - 1]);
    }
  }

  /** One call turns refill into admissions one for one. */
  lemma CallConserves(b: State, now: real)
    requires Valid(b) && now >= b.lastFill
    ensures var (b', ok) := Allow(b, now);
            (if ok then 1.0 else 0.0) + b'.tokens == Refilled(b, now)
  {
  }

  /** What a bucket may have given out, and still hold, when the time is t. */
  function Allowance(b: State, start: real, t: real): real {
    b.capacity + b.rate * (t - start)
  }

  lemma AllowanceGrows(b: State, b': State, start: real, s: real, t: real)
    requires b.rate >= 0.0 && b'.rate == b.rate && b'.capacity == b.capacity && s <= t
    ensures Allowance(b, start, s) + b'.rate * (t - s) == Allowance(b, start, t)
    ensures Allowance(b, start, start) == b.capacity && Allowance(b, start, s) <= Allowance(b, start, t)
  {
    Product(b.rate, t - s);
    Distribute(b.rate, s - start, t - s);
    assert (s - start) + (t - s) == t - start;
  }

  /** Over one call, admitted plus left changes by the refill alone. */
  lemma OneCallLater(b: State, times: seq<real>)
    requires Valid(b) && Chronological(b.lastFill, times) && times != []
    ensures var before, now := times[..|times| - 1], times[|times| - 1];
            Admitted(b, times) as real + Run(b, times).tokens
            == Admitted(b, before) as real + Refilled(Run(b, before), now)
  {
    var before, now := times[..|times| - 1], times[|times| - 1];
    TokensStayInBounds(b, before);
    CallConserves(Run(b, before), now);
  }

  /** Refilling after s keeps below the allowance at t what was below the allowance at s. */
  lemma RefillWithinAllowance(b: State, b1: State, start: real, spent: real, t: real)
    requires Valid(b1) && b1.lastFill <= t && b1.rate == b.rate && b1.capacity == b.capacity
    requires spent + b1.tokens <= Allowance(b, start, b1.lastFill)
    ensures spent + Refilled(b1, t) <= Allowance(b, start, t)
  {
    AllowanceGrows(b, b1, start, b1.lastFill, t);
    RefillBounds(b1, t);
  }

  /** From any valid state, what is admitted and what is left stay within the capacity plus the refill since `start`. */
  lemma {:induction false} WindowPotential(b: State, times: seq<real>, start: real)
    requires Valid(b) && Chronological(b.lastFill, times) && times != [] && start <= times[0]
    ensures Admitted(b, times) as real + Run(b, times).tokens <= Allowance(b, start, times[|times| - 1])
    decreases |times|
  {
    var before, now := times[..|times| - 1], times[|times| - 1];
    OneCallLater(b, times);
    if before == [] {
      FirstWithinAllowance(b, start, now);
    } else {
      WindowPotential(b, before, start);
      TokensStayInBounds(b, before);
      RefillWithinAllowance(b, Run(b, before), start, Admitted(b, before) as real, now);
    }
  }

  lemma FirstWithinAllowance(b: State, start: real, t: real)
    requires Valid(b) && b.lastFill <= t && start <= t
    ensures Refilled(b, t) <= Allowance(b, start, t)
  {
    AllowanceGrows(b, b, start, start, t);
    RefillBounds(b, t);
  }

  lemma Distribute(x: real, y: real, z: real)
    ensures x * (y + z) == x * y + x * z
  {
  }

  lemma WindowFrom(b: State, window: seq<real>, s: real, t: real)
    requires Valid(b) && Chronological(b.lastFill, window) && s <= t
    requires forall k | 0 <= k < |window| :: s <= window[k] <= t
    ensures Admitted(b, window) as real <= Allowance(b, s, t)
  {
    if window == [] {
      AllowanceGrows(b, b, s, s, t);
    } else {
      WindowPotential(b, window, s);
      TokensStayInBounds(b, window);
      AllowanceGrows(b, b, s, window[|window| - 1], t);
    }
  }

  /**
    In every window [s, t] of every run, the bucket admits at most capacity + rate * (t - s) of the
    requests i..j that fall into the window.
  */
  lemma WindowBound(b: State, times: seq<real>, i: nat, j: nat, s: real, t: real)
    requires Valid(b) && Chronological(b.lastFill, times)
    requires i <= j <= |times| && s <= t
    requires forall k | i <= k < j :: s <= times[k] <= t
    ensures Admitted(Run(b, times[..i]), times[i..j]) as real <= b.capacity + b.rate * (t - s)
  {
    var b1, window := Run(b, times[..i]), times[i..j];
    TokensStayInBounds(b, times[..i]);
    assert forall k | 0 <= k < |window| :: window[k] == times[i + k];
    WindowFrom(b1, window, s, t);
    SameAllowance(b, b1, s, t);
  }

  lemma SameAllowance(b: State, b': State, s: real, t: real)
    requires b'.rate == b.rate && b'.capacity == b.capacity
    ensures Allowance(b', s, t) == b.capacity + b.rate * (t - s)
  {
  }

  /** The window's requests really are those of the run: counting by prefixes agrees with counting from the middle. */
  lemma {:induction false} AdmittedSplits(b: State, before: seq<real>, after: seq<real>)
    ensures Run(b, before + after) == Run(Run(b, before), after)
    ensures Admitted(b, before + after) == Admitted(b, before) + Admitted(Run(b, before), after)
    decreases |after|
  {
    if after == [] {
      assert before + after == before;
    } else {
      var k := |after| - 1;
      assert (before + after)[..|before + after| - 1] == before + after[..k];
      AdmittedSplits(b, before, after[..k]);
    }
  }

  // ----- exactly which requests are admitted -----

  /** The admissions of the window that begins with request j. */
  function Since(b: State, times: seq<real>, j: nat): nat
    requires j <= |times|
  {
    Admitted(Run(b, times[..j]), times[j..])
  }

  lemma SinceOneMore(b: State, before: seq<real>, j: nat, now: real)
    requires j <= |before|
    ensures Since(b, before + [now], j) == Since(b, before, j) + if Allow(Run(b, before), now).1 then 1 else 0
    ensures Since(b, before, |before|) == 0
  {
    var all := before + [now];
    assert all[..j] == before[..j] && all[j..] == before[j..] + [now];
    assert before == before[..j] + before[j..];
    AdmittedSplits(b, before[..j], before[j..]);
    AdmittedLast(Run(b, before[..j]), before[j..], now);
    assert before[|before|..] == [];
  }

  lemma AdmittedLast(b: State, times: seq<real>, now: real)
    ensures Admitted(b, times + [now]) == Admitted(b, times) + if Allow(Run(b, times), now).1 then 1 else 0
  {
    assert (times + [now])[..|times|] == times;
  }

  /** The count for each window of the run. */
  function Counts(b: State, times: seq<real>): (counts: seq<nat>)
    ensures |counts| == |times| && forall j | 0 <= j < |times| :: counts[j] == Since(b, times, j)
  {
    seq(|times|, j requires 0 <= j < |times| => Since(b, times, j))
  }

  /** What a window that began at t and has admitted n may still admit at time u. */
  function Left(cap: real, rate: real, t: real, n: nat, u: real): real {
    cap + (rate * u - rate * t) - n as real
  }

  lemma LeftLater(cap: real, rate: real, t: real, n: nat, u: real, now: real)
    ensures Left(cap, rate, t, n, now) == Left(cap, rate, t, n, u) + (rate * now - rate * u)
  {
  }

  lemma LeftNew(cap: real, rate: real, now: real)
    ensures Left(cap, rate, now, 0, now) == cap
  {
  }

  lemma LeftCounts(cap: real, rate: real, t: real, n: nat, more: nat, u: real)
    ensures Left(cap, rate, t, n + more, u) == Left(cap, rate, t, n, u) - more as real
  {
  }

  /** The tokens are the least that any window has left. */
  ghost predicate Least(cap: real, rate: real, starts: seq<real>, counts: seq<nat>, tokens: real, u: real) {
    && |counts| == |starts|
    && (forall j | 0 <= j < |starts| :: tokens <= Left(cap, rate, starts[j], counts[j], u))
    && exists j :: 0 <= j < |starts| && tokens == Left(cap, rate, starts[j], counts[j], u)
  }

  /** Refilling keeps it so, with a new window that has admitted nothing yet. */
  lemma RefillKeepsLeast(cap: real, rate: real, starts: seq<real>, counts: seq<nat>, tokens: real, u: real, now: real,
                         filled: real)
    requires Least(cap, rate, starts, counts, tokens, u)
    requires filled == if tokens + (rate * now - rate * u) > cap then cap else tokens + (rate * now - rate * u)
    ensures Least(cap, rate, starts + [now], counts + [0], filled, now)
  {
    var starts', counts' := starts + [now], counts + [0];
    LeftNew(cap, rate, now);
    forall j | 0 <= j < |starts'| ensures filled <= Left(cap, rate, starts'[j], counts'[j], now) {
      if j < |starts| {
        LeftLater(cap, rate, starts[j], counts[j], u, now);
      }
    }
    if filled == cap {
      assert filled == Left(cap, rate, starts'[|starts|], counts'[|starts|], now);
    } else {
      var j :| 0 <= j < |starts| && tokens == Left(cap, rate, starts[j], counts[j], u);
      LeftLater(cap, rate, starts[j], counts[j], u, now);
      assert filled == Left(cap, rate, starts'[j], counts'[j], now);
    }
  }

  /** So does taking what every window admits. */
  lemma TakingKeepsLeast(cap: real, rate: real, starts: seq<real>, counts: seq<nat>, counts': seq<nat>,
                         tokens: real, tokens': real, u: real, more: nat)
    requires Least(cap, rate, starts, counts, tokens, u) && |counts'| == |counts| && tokens' == tokens - more as real
    requires forall j | 0 <= j < |counts| :: counts'[j] == counts[j] + more
    ensures Least(cap, rate, starts, counts', tokens', u)
  {
    forall j | 0 <= j < |starts|
      ensures Left(cap, rate, starts[j], counts'[j], u) == Left(cap, rate, starts[j], counts[j], u) - more as real
    {
      LeftCounts(cap, rate, starts[j], counts[j], more, u);
    }
  }

  lemma RefilledIs(b: State, now: real)
    ensures var filled := b.tokens + (b.rate * now - b.rate * b.lastFill);
            Refilled(b, now) == if filled > b.capacity then b.capacity else filled
  {
    assert (now - b.lastFill) * b.rate == b.rate * now - b.rate * b.lastFill;
  }

  lemma FullStaysFull(b: State, now: real)
    requires Valid(b) && b.tokens == b.capacity && now >= b.lastFill
    ensures Refilled(b, now) == b.capacity
  {
    RefillBounds(b, now);
  }

  lemma ChronologicalBefore(start: real, before: seq<real>, now: real)
    requires Chronological(start, before + [now])
    ensures Chronological(start, before)
    ensures start <= now && forall i | 0 <= i < |before| :: before[i] <= now
  {
    var all := before + [now];
    assert all[|before|] == now;
    assert forall i | 0 <= i < |before| :: before[i] == all[i];
  }

  /** Just before a request is answered, the tokens are the least that any window has left, its own included. */
  lemma {:induction false} FilledIsLeast(b: State, before: seq<real>, now: real)
    requires Valid(b) && b.tokens == b.capacity && Chronological(b.lastFill, before + [now])
    ensures Least(b.capacity, b.rate, before + [now], Counts(b, before) + [0], Refilled(Run(b, before), now), now)
    decreases |before|
  {
    ChronologicalBefore(b.lastFill, before, now);
    if before == [] {
      FullStaysFull(b, now);
      LeftNew(b.capacity, b.rate, now);
      assert ([] + [now])[0] == now && (Counts(b, before) + [0])[0] == 0;
    } else {
      var k := |before| - 1;
      assert before == before[..k] + [before[k]];
      FilledIsLeast(b, before[..k], before[k]);
      TokensAreLeast(b, before[..k], before[k]);
      TokensStayInBounds(b, before);
      FilledLater(b, Run(b, before), before, Counts(b, before), before[k], now);
    }
  }

  lemma FilledLater(b: State, b1: State, before: seq<real>, counts: seq<nat>, u: real, now: real)
    requires Least(b.capacity, b.rate, before, counts, b1.tokens, u)
    requires b1.capacity == b.capacity && b1.rate == b.rate && b1.lastFill == u
    ensures Least(b.capacity, b.rate, before + [now], counts + [0], Refilled(b1, now), now)
  {
    RefilledIs(b1, now);
    RefillKeepsLeast(b.capacity, b.rate, before, counts, b1.tokens, u, now, Refilled(b1, now));
  }

  lemma TokensAreLeast(b: State, before: seq<real>, now: real)
    requires Least(b.capacity, b.rate, before + [now], Counts(b, before) + [0], Refilled(Run(b, before), now), now)
    ensures Least(b.capacity, b.rate, before + [now], Counts(b, before + [now]), Run(b, before + [now]).tokens, now)
  {
    var more := CountsOneMore(b, before, now);
    TakingKeepsLeast(b.capacity, b.rate, before + [now], Counts(b, before) + [0], Counts(b, before + [now]),
                     Refilled(Run(b, before), now), Run(b, before + [now]).tokens, now, more);
  }

  /** An admission counts for every window and takes one token. */
  lemma CountsOneMore(b: State, before: seq<real>, now: real) returns (more: nat)
    ensures forall j | 0 <= j <= |before| :: Counts(b, before + [now])[j] == (Counts(b, before) + [0])[j] + more
    ensures Run(b, before + [now]).tokens == Refilled(Run(b, before), now) - more as real
  {
    more := if Allow(Run(b, before), now).1 then 1 else 0;
    forall j | 0 <= j <= |before| ensures Counts(b, before + [now])[j] == (Counts(b, before) + [0])[j] + more {
      SinceOneMore(b, before, j, now);
    }
    RunMore(b, before, now);
  }

  /** One more admission keeps a window that began at t and has admitted n within the capacity and the refill. */
  predicate Room(cap: real, rate: real, t: real, n: nat, u: real) {
    n as real + 1.0 <= cap + rate * (u - t)
  }

  /**
    A bucket that was opened full admits a request at time u exactly when no window that begins with one of the earlier
    requests, or with this one, would then have admitted more than the capacity and the refill since its beginning.
  */
  lemma AdmitsExactlyWhen(b: State, times: seq<real>, u: real)
    requires Valid(b) && b.tokens == b.capacity && Chronological(b.lastFill, times + [u])
    ensures Allow(Run(b, times), u).1 <==>
            forall j | 0 <= j <= |times| :: Room(b.capacity, b.rate, (times + [u])[j], Since(b, times, j), u)
  {
    FilledIsLeast(b, times, u);
    LeastDecides(b, times, u, Refilled(Run(b, times), u));
  }

  lemma LeastDecides(b: State, times: seq<real>, u: real, filled: real)
    requires Least(b.capacity, b.rate, times + [u], Counts(b, times) + [0], filled, u)
    ensures filled >= 1.0 <==>
            forall j | 0 <= j <= |times| :: Room(b.capacity, b.rate, (times + [u])[j], Since(b, times, j), u)
  {
    var starts, counts := times + [u], Counts(b, times) + [0];
    forall j | 0 <= j <= |times| ensures counts[j] == Since(b, times, j) {
      SinceOneMore(b, times, j, u);
    }
    LeastHasRoom(b.capacity, b.rate, starts, counts, filled, u);
  }

  lemma RoomIsLeft(cap: real, rate: real, t: real, n: nat, u: real)
    ensures Room(cap, rate, t, n, u) <==> Left(cap, rate, t, n, u) >= 1.0
  {
  }

  lemma LeastHasRoom(cap: real, rate: real, starts: seq<real>, counts: seq<nat>, filled: real, u: real)
    requires Least(cap, rate, starts, counts, filled, u)
    ensures filled >= 1.0 <==> forall j | 0 <= j < |starts| :: Room(cap, rate, starts[j], counts[j], u)
  {
    forall j | 0 <= j < |starts|
      ensures Room(cap, rate, starts[j], counts[j], u) <==> Left(cap, rate, starts[j], counts[j], u) >= 1.0
    {
      RoomIsLeft(cap, rate, starts[j], counts[j], u);
    }
    if forall j | 0 <= j < |starts| :: Room(cap, rate, starts[j], counts[j], u) {
      var j :| 0 <= j < |starts| && filled == Left(cap, rate, starts[j], counts[j], u);
      assert Room(cap, rate, starts[j], counts[j], u);
    }
  }

  lemma AllowedAfter(b: State, later: real, wait: real)
    requires later - b.lastFill == wait && b.capacity >= 1.0
    ensures Allow(b, later).1 <==> b.tokens + wait * b.rate >= 1.0
  {
    var refill := (later - b.lastFill) * b.rate;
    SameProduct(later - b.lastFill, wait, b.rate);
    assert refill == wait * b.rate;
    assert Refilled(b, later) == if b.tokens + refill > b.capacity then b.capacity else b.tokens + refill;
  }

  lemma SameProduct(x: real, y: real, z: real)
    requires x == y
    ensures x * z == y * z
  {
  }

  lemma RefillsOne(tokens: real, rate: real, wait: real)
    requires rate > 0.0
    ensures tokens + wait * rate >= 1.0 <==> wait >= (1.0 - tokens) / rate
  {
    var need := (1.0 - tokens) / rate;
    Quotient(1.0 - tokens, rate);
    if wait >= need {
      ScaleUp(need, wait, rate);
    } else {
      ScaleStrictly(wait, need, rate);
    }
  }

  /** After a denial with no other request, a wait is long enough exactly when it refills one whole token. */
  lemma WaitIsEnoughExactlyWhen(b: State, now: real, wait: real)
    requires Valid(b) && b.capacity >= 1.0 && b.rate > 0.0 && now >= b.lastFill && wait >= 0.0
    requires !Allow(b, now).1
    ensures var b' := Allow(b, now).0;
            Allow(b', now + wait).1 <==> wait >= (1.0 - b'.tokens) / b'.rate
  {
    var b' := Allow(b, now).0;
    AllowedAfter(b', now + wait, wait);
    RefillsOne(b'.tokens, b'.rate, wait);
  }

  lemma Quotient(x: real, y: real)
    requires y > 0.0
    ensures x / y * y == x
    ensures x >= 0.0 ==> x / y >= 0.0
  {
  }

  lemma ScaleUp(x: real, y: real, z: real)
    requires x <= y && z > 0.0
    ensures x * z <= y * z
  {
  }

  lemma ScaleStrictly(x: real, y: real, z: real)
    requires x < y && z > 0.0
    ensures x * z < y * z
  {
  }

  /** Retry-After is honest: waiting that long is always enough, and waiting more than a second less never is. */
  lemma RetryAfterIsTight(b: State, now: real, wait: real)
    requires Valid(b) && b.capacity >= 1.0 && b.rate > 0.0 && now >= b.lastFill && wait >= 0.0
    requires !Allow(b, now).1
    ensures var b' := Allow(b, now).0;
            && (wait >= RetryAfter(b') as real ==> Allow(b', now + wait).1)
            && (wait < (RetryAfter(b') - 1) as real ==> !Allow(b', now + wait).1)
  {
    WaitIsEnoughExactlyWhen(b, now, wait);
    RefillBounds(b, now);
    var b' := Allow(b, now).0;
    Quotient(1.0 - b'.tokens, b'.rate);
  }

  // ----- the limiter -----

  /** The running value of rpm in resolveRPM after the scopes have been scanned. */
  function Scanned(limits: map<string, int>, scopes: seq<string>): int
    decreases |scopes|
  {
    if scopes == [] then 0
    else
      var rpm := Scanned(limits, scopes[..|scopes| - 1]);
      var s := scopes[|scopes| - 1];
      if s in limits && (rpm == 0 || limits[s] < rpm) then limits[s] else rpm
  }

  function Resolve(limits: map<string, int>, defaultRPM: int, scopes: seq<string>): int {
    if Scanned(limits, scopes) == 0 then defaultRPM else Scanned(limits, scopes)
  }

  /** The configured limits that apply to a request. */
  function Matching(limits: map<string, int>, scopes: seq<string>): set<int> {
    set s | s in scopes && s in limits :: limits[s]
  }

  lemma {:induction false} ScannedFacts(limits: map<string, int>, scopes: seq<string>)
    ensures var rpm := Scanned(limits, scopes);
            var all := Matching(limits, scopes);
            && (rpm == 0 || rpm in all)
            && ((exists x :: x in all && x < 0) ==> forall x | x in all :: rpm <= x)
            && (0 !in all ==> (forall x | x in all :: rpm <= x) && (rpm == 0 <==> all == {}))
    decreases |scopes|
  {
    if scopes != [] {
      var before, s := scopes[..|scopes| - 1], scopes[|scopes| - 1];
      ScannedFacts(limits, before);
      assert scopes == before + [s];
      assert Matching(limits, scopes) == Matching(limits, before) + (if s in limits then {limits[s]} else {});
    }
  }

  /**
    The resolved limit is the lowest that applies, or the default when none does, exactly when the
    lowest is not 0: a limit of 0 is read as "no limit seen yet".
  */
  lemma LowestAppliesExactlyWhen(limits: map<string, int>, defaultRPM: int, scopes: seq<string>, lowest: int)
    requires defaultRPM > 0
    ensures Matching(limits, scopes) == {} ==> Resolve(limits, defaultRPM, scopes) == defaultRPM
    ensures lowest in Matching(limits, scopes) && (forall x | x in Matching(limits, scopes) :: lowest <= x) ==>
              (Resolve(limits, defaultRPM, scopes) == lowest <==> lowest != 0)
  {
    ScannedFacts(limits, scopes);
  }

  type Buckets = map<string, State>

  /** The bucket a request finds: the client's own, or a full new one at the limit resolved for this request. */
  function BucketFor(all: Buckets, clientId: string, rpm: int, openedAt: real): State {
    if clientId in all then all[clientId] else State(rpm as real, rpm as real, rpm as real / 60.0, openedAt)
  }

  /** One request: only the client's own bucket changes. */
  function AllowIn(all: Buckets, clientId: string, rpm: int, openedAt: real, now: real): (Buckets, bool) {
    var (b, ok) := Allow(BucketFor(all, clientId, rpm, openedAt), now);
    (all[clientId := b], ok)
  }

  class Limiter {
    const limits: map<string, int>
    const defaultRPM: int
    var buckets: map<string, Bucket>

    ghost function View(): Buckets
      reads this, buckets.Values
    {
      map c | c in buckets :: buckets[c].View()
    }

    /** No two clients share a bucket. */
    ghost predicate Valid()
      reads this
    {
      forall a, b | a in buckets && b in buckets && a != b :: buckets[a] != buckets[b]
    }

    constructor (limits: map<string, int>, defaultRPM: int)
      ensures this.limits == limits && this.defaultRPM == (if defaultRPM <= 0 then 600 else defaultRPM)
      ensures Valid() && View() == map[]
    {
      this.limits := limits;
      this.defaultRPM := if defaultRPM <= 0 then 600 else defaultRPM;
      buckets := map[];
    }

    method ResolveRPM(scopes: seq<string>) returns (rpm: int)
      ensures rpm == Resolve(limits, defaultRPM, scopes)
    {
      rpm := 0;
      for i := 0 to |scopes|
        invariant rpm == Scanned(limits, scopes[..i])
      {
        assert scopes[..i + 1][..i] == scopes[..i];
        if scopes[i] in limits {
          var r := limits[scopes[i]];
          if rpm == 0 || r < rpm {
            rpm := r;
          }
        }
      }
      assert scopes[..|scopes|] == scopes;
      if rpm == 0 {
        rpm := defaultRPM;
      }
    }

    /** A client keeps the bucket of its first request, whatever limit later requests resolve to. */
    method GetBucket(clientId: string, rpm: int, openedAt: real) returns (bucket: Bucket)
      requires Valid()
      modifies this
      ensures Valid() && clientId in buckets && buckets[clientId] == bucket
      ensures bucket in old(buckets).Values || fresh(bucket)
      ensures View() == old(View())[clientId := BucketFor(old(View()), clientId, rpm, openedAt)]
    {
      if clientId in buckets {
        return buckets[clientId];
      }
      bucket := new Bucket(rpm, openedAt);
      buckets := buckets[clientId := bucket];
    }

    /** The clock is read once to open a bucket and once to charge it. */
    method AllowClient(clientId: string, scopes: seq<string>, openedAt: real, now: real) returns (ok: bool)
      requires Valid()
      modifies this, buckets.Values
      ensures Valid()
      ensures var rpm := Resolve(limits, defaultRPM, scopes);
              (View(), ok) == AllowIn(old(View()), clientId, rpm, openedAt, now)
    {
      var rpm := ResolveRPM(scopes);
      var bucket := GetBucket(clientId, rpm, openedAt);
      ghost var found := View();
      ok := Charge(clientId, now);
      assert View() == found[clientId := View()[clientId]];
      assert View() == old(View())[clientId := View()[clientId]];
    }

    method Charge(clientId: string, now: real) returns (ok: bool)
      requires Valid() && clientId in buckets
      modifies buckets[clientId]
      ensures var (b, admitted) := Allow(old(View())[clientId], now);
              View() == old(View())[clientId := b] && ok == admitted
    {
      ghost var before := View();
      assert before[clientId] == buckets[clientId].View();
      ok := buckets[clientId].AllowRequest(now);
      assert View() == before[clientId := buckets[clientId].View()];
    }
  }

  // ----- runs of the limiter -----

  datatype Request = Request(clientId: string, rpm: int, openedAt: real, now: real)

  function Serve(requests: seq<Request>): Buckets
    decreases |requests|
  {
    if requests == [] then map[]
    else
      var r := requests[|requests| - 1];
      AllowIn(Serve(requests[..|requests| - 1]), r.clientId, r.rpm, r.openedAt, r.now).0
  }

  /** The times of one client's requests, and the bucket its first one opens. */
  function TimesOf(requests: seq<Request>, clientId: string): seq<real>
    decreases |requests|
  {
    if requests == [] then []
    else
      var r := requests[|requests| - 1];
      TimesOf(requests[..|requests| - 1], clientId) + if r.clientId == clientId then [r.now] else []
  }

  function Opened(requests: seq<Request>, clientId: string): State
    requires TimesOf(requests, clientId) != []
    decreases |requests|
  {
    var r := requests[|requests| - 1];
    if TimesOf(requests[..|requests| - 1], clientId) != [] then Opened(requests[..|requests| - 1], clientId)
    else State(r.rpm as real, r.rpm as real, r.rpm as real / 60.0, r.openedAt)
  }

  /** Whatever other clients do in between, a client's bucket is its first one, run over its own requests alone. */
  lemma {:induction false} ClientsAreApart(requests: seq<Request>, clientId: string)
    ensures clientId in Serve(requests) <==> TimesOf(requests, clientId) != []
    ensures clientId in Serve(requests) ==>
              Serve(requests)[clientId] == Run(Opened(requests, clientId), TimesOf(requests, clientId))
    decreases |requests|
  {
    if requests != [] {
      var before, r := requests[..|requests| - 1], requests[|requests| - 1];
      ClientsAreApart(before, clientId);
      if r.clientId == clientId {
        RunMore(Opened(requests, clientId), TimesOf(before, clientId), r.now);
      } else {
        assert TimesOf(before, clientId) + [] == TimesOf(before, clientId);
      }
    }
  }

  lemma OpenedOnce(requests: seq<Request>, r: Request)
    ensures TimesOf(requests + [r], r.clientId) == TimesOf(requests, r.clientId) + [r.now]
    ensures Opened(requests + [r], r.clientId) ==
            if TimesOf(requests, r.clientId) != [] then Opened(requests, r.clientId)
            else State(r.rpm as real, r.rpm as real, r.rpm as real / 60.0, r.openedAt)
  {
    assert (requests + [r])[..|requests|] == requests;
  }

  /** A client's bucket opens with the limit of its first request: that many tokens, refilled within a minute. */
  lemma {:induction false} OpensFull(requests: seq<Request>, clientId: string) returns (k: nat)
    requires TimesOf(requests, clientId) != []
    ensures k < |requests| && requests[k].clientId == clientId && TimesOf(requests[..k], clientId) == []
    ensures var b, rpm := Opened(requests, clientId), requests[k].rpm as real;
            b.tokens == b.capacity == rpm && b.rate == rpm / 60.0 && b.lastFill == requests[k].openedAt
    decreases |requests|
  {
    var n := |requests| - 1;
    if TimesOf(requests[..n], clientId) != [] {
      k := OpensFull(requests[..n], clientId);
      assert requests[..n][..k] == requests[..k];
    } else {
      k := n;
    }
  }

  /**
    Whatever other clients do, a client's request is let through exactly when no window that begins with one of its
    earlier requests, or with this one, would then have admitted more than the limit that its first request resolved to
    and a sixtieth of that limit for every second since the window began.
  */
  lemma ClientIsAdmittedExactlyWhen(requests: seq<Request>, r: Request)
    requires var b := Opened(requests + [r], r.clientId);
             && TimesOf(requests + [r], r.clientId) != []
             && b.capacity >= 0.0 && Chronological(b.lastFill, TimesOf(requests + [r], r.clientId))
    ensures var b, times := Opened(requests + [r], r.clientId), TimesOf(requests, r.clientId);
            && b.rate == b.capacity / 60.0
            && (AllowIn(Serve(requests), r.clientId, r.rpm, r.openedAt, r.now).1 <==>
                forall j | 0 <= j <= |times| ::
                  Room(b.capacity, b.rate, (times + [r.now])[j], Since(b, times, j), r.now))
  {
    var b, times := Opened(requests + [r], r.clientId), TimesOf(requests, r.clientId);
    OpenedIsFull(requests + [r], r.clientId);
    ClientAnswer(requests, r);
    AdmitsExactlyWhen(b, times, r.now);
  }

  lemma ClientAnswer(requests: seq<Request>, r: Request)
    ensures TimesOf(requests + [r], r.clientId) == TimesOf(requests, r.clientId) + [r.now]
    ensures AllowIn(Serve(requests), r.clientId, r.rpm, r.openedAt, r.now).1 <==>
            Allow(Run(Opened(requests + [r], r.clientId), TimesOf(requests, r.clientId)), r.now).1
  {
    OpenedOnce(requests, r);
    BucketFound(requests, r);
    AnswerOf(Serve(requests), r, Run(Opened(requests + [r], r.clientId), TimesOf(requests, r.clientId)));
  }

  lemma OpenedIsFull(requests: seq<Request>, clientId: string)
    requires TimesOf(requests, clientId) != []
    ensures var b := Opened(requests, clientId);
            b.tokens == b.capacity && b.rate == b.capacity / 60.0 && (b.capacity >= 0.0 ==> Valid(b))
  {
    var k := OpensFull(requests, clientId);
  }

  lemma BucketFound(requests: seq<Request>, r: Request)
    ensures TimesOf(requests + [r], r.clientId) != []
    ensures BucketFor(Serve(requests), r.clientId, r.rpm, r.openedAt) ==
            Run(Opened(requests + [r], r.clientId), TimesOf(requests, r.clientId))
  {
    OpenedOnce(requests, r);
    ClientsAreApart(requests, r.clientId);
  }

  lemma AnswerOf(all: Buckets, r: Request, found: State)
    requires BucketFor(all, r.clientId, r.rpm, r.openedAt) == found
    ensures AllowIn(all, r.clientId, r.rpm, r.openedAt, r.now).1 <==> Allow(found, r.now).1
  {
  }

  lemma RunMore(b: State, times: seq<real>, now: real)
    ensures Run(b, times + [now]) == Allow(Run(b, times), now).0
    ensures Run(b, []) == b
  {
    assert (times + [now])[..|times|] == times;
  }
}
