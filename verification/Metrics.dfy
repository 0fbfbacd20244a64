/**
  The lock-free summary (internal/metrics/metrics.go): a double-checked insert under a lock, then
  atomic additions and compare-and-swap retry loops.  Every atomic operation is one step, and the
  steps of any number of Observe calls interleave freely.  Overflow of the sums is not modelled.
*/
module Metrics {
  const MAX_CARDINALITY: nat := 1000
  const MAX_INT64: int := 0x7fff_ffff_ffff_ffff

  /** Durations in microseconds. */
  type Micros = x: int | -0x8000_0000_0000_0000 <= x <= 0x7fff_ffff_ffff_ffff

  datatype Labels = Labels(verb: string, path: string, status: int)

  datatype Data = Data(count: int, sum: int, min: int, max: int)

  const EMPTY: Data := Data(0, 0, MAX_INT64, 0)

  // ----- the machine -----

  /** Where a call to Observe stands: the operation it performs next. */
  datatype Next =
    | Lookup            // under the read lock
    | Insert            // under the write lock
    | AddCount
    | AddSum
    | LoadMin
    | SwapMin(seen: int)
    | LoadMax
    | SwapMax(seen: int)
    | Done
    | Dropped           // too many series

  datatype Call = Call(labels: Labels, us: Micros, next: Next)

  datatype State = State(series: map<Labels, Data>, calls: seq<Call>)

  const INITIAL: State := State(map[], [])

  datatype Event = Start(labels: Labels, us: Micros) | Advance(call: nat)

  function Operate(series: map<Labels, Data>, c: Call): (map<Labels, Data>, Next) {
    if c.next == Lookup then
      (series, if c.labels in series then AddCount else Insert)
    else if c.next == Insert then
      if c.labels in series then (series, AddCount)
      else if |series| >= MAX_CARDINALITY then (series, Dropped)
      else (series[c.labels := EMPTY], AddCount)
    else if c.next == Done || c.next == Dropped || c.labels !in series then
      (series, c.next)
    else
      var d := series[c.labels];
      match c.next
      case AddCount => (series[c.labels := d.(count := d.count + 1)], AddSum)
      case AddSum => (series[c.labels := d.(sum := d.sum + c.us)], LoadMin)
      case LoadMin => (series, if c.us >= d.min then LoadMax else SwapMin(d.min))
      case SwapMin(seen) =>
        if d.min == seen then (series[c.labels := d.(min := c.us)], LoadMax) else (series, LoadMin)
      case LoadMax => (series, if c.us <= d.max then Done else SwapMax(d.max))
      case SwapMax(seen) =>
        if d.max == seen then (series[c.labels := d.(max := c.us)], Done) else (series, LoadMax)
  }

  function Step(s: State, e: Event): State {
    match e
    case Start(labels, us) => s.(calls := s.calls + [Call(labels, us, Lookup)])
    case Advance(i) =>
      if i < |s.calls| then
        var (series, next) := Operate(s.series, s.calls[i]);
        State(series, s.calls[i := s.calls[i].(next := next)])
      else s
  }

  function Run(events: seq<Event>): State
    decreases |events|
  {
    if events == [] then INITIAL else Step(Run(events[..|events| - 1]), events[|events| - 1])
  }

  // ----- what the calls have contributed so far -----

  function Stage(next: Next): nat {
    match next
    case Lookup => 0
    case Insert => 0
    case AddCount => 1
    case AddSum => 2
    case LoadMin => 3
    case SwapMin(_) => 3
    case LoadMax => 4
    case SwapMax(_) => 4
    case Done => 5
    case Dropped => 0
  }

  function Min(a: int, b: int): int {
    if a <= b then a else b
  }

  function Max(a: int, b: int): int {
    if a >= b then a else b
  }

  /** The data that the finished parts of the calls on one series amount to. */
  function Contributed(calls: seq<Call>, labels: Labels): Data
    decreases |calls|
  {
    if calls == [] then EMPTY
    else
      var d := Contributed(calls[..|calls| - 1], labels);
      var c := calls[|calls| - 1];
      if c.labels != labels then d else Add(d, c)
  }

  function Add(d: Data, c: Call): Data {
    Data(d.count + (if Stage(c.next) >= 2 then 1 else 0),
         d.sum + (if Stage(c.next) >= 3 then c.us else 0),
         if Stage(c.next) >= 4 then Min(d.min, c.us) else d.min,
         if Stage(c.next) >= 5 then Max(d.max, c.us) else d.max)
  }

  /** One call moving on changes its own contribution and nothing else. */
  ghost predicate Moved(d: Data, d': Data, us: int, from: nat, to: nat) {
    && d'.count == d.count + (if from < 2 <= to then 1 else 0)
    && d'.sum == d.sum + (if from < 3 <= to then us else 0)
    && d'.min == (if from < 4 <= to then Min(d.min, us) else d.min)
    && d'.max == (if from < 5 <= to then Max(d.max, us) else d.max)
  }

  lemma {:induction false} ContributionMoves(calls: seq<Call>, i: nat, next: Next, labels: Labels)
    requires i < |calls| && Stage(calls[i].next) <= Stage(next)
    ensures var d, d' := Contributed(calls, labels), Contributed(calls[i := calls[i].(next := next)], labels);
            if calls[i].labels == labels then Moved(d, d', calls[i].us, Stage(calls[i].next), Stage(next)) else d' == d
    decreases |calls|
  {
    var k := |calls| - 1;
    var calls' := calls[i := calls[i].(next := next)];
    if i == k {
      assert calls'[..k] == calls[..k];
    } else {
      assert calls'[..k] == calls[..k][i := calls[i].(next := next)];
      ContributionMoves(calls[..k], i, next, labels);
    }
  }

  // ----- the invariant -----

  ghost predicate CallSound(c: Call, series: map<Labels, Data>) {
    && (Stage(c.next) >= 1 ==> c.labels in series)
    && (c.next == Dropped ==> c.labels !in series && |series| >= MAX_CARDINALITY)
    && (c.next.SwapMin? ==> c.us < c.next.seen)
    && (c.next.SwapMax? ==> c.us > c.next.seen)
  }

  ghost predicate Admitted(calls: seq<Call>, labels: Labels) {
    exists i :: 0 <= i < |calls| && calls[i].labels == labels && Stage(calls[i].next) >= 1
  }

  /** What the invariant says of one series. */
  ghost predicate SeriesSound(calls: seq<Call>, series: map<Labels, Data>, l: Labels) {
    if l in series then series[l] == Contributed(calls, l) && Admitted(calls, l)
    else Contributed(calls, l) == EMPTY
  }

  ghost predicate Inv(s: State) {
    && |s.series| <= MAX_CARDINALITY
    && (forall i | 0 <= i < |s.calls| :: CallSound(s.calls[i], s.series))
    && (forall l :: SeriesSound(s.calls, s.series, l))
  }

  /** What one atomic operation of a sound call does: it moves on, and its series moves with it. */
  lemma OperateMoves(series: map<Labels, Data>, c: Call)
    requires CallSound(c, series) && |series| <= MAX_CARDINALITY
    ensures var (series', next) := Operate(series, c);
            && Stage(c.next) <= Stage(next) && CallSound(c.(next := next), series')
            && series.Keys <= series'.Keys <= series.Keys + {c.labels} && |series'| <= MAX_CARDINALITY
            && (|series| >= MAX_CARDINALITY ==> series'.Keys == series.Keys)
            && (forall l | l in series && l != c.labels :: series'[l] == series[l])
            && (c.labels in series' ==>
                  && Stage(next) >= (if c.next == Lookup then 0 else 1)
                  && Moved(if c.labels in series then series[c.labels] else EMPTY, series'[c.labels],
                           c.us, Stage(c.next), Stage(next))
                  && (c.labels !in series ==> Stage(next) >= 1))
  {
    var (series', next) := Operate(series, c);
    assert c.labels in series ==> series'.Keys == series.Keys;
    assert |series| == |series.Keys| && |series'| == |series'.Keys|;
  }

  lemma AdvanceKeepsCalls(s: State, i: nat)
    requires Inv(s) && i < |s.calls|
    ensures var s' := Step(s, Advance(i));
            |s'.series| <= MAX_CARDINALITY && forall j | 0 <= j < |s'.calls| :: CallSound(s'.calls[j], s'.series)
  {
    var s' := Step(s, Advance(i));
    OperateMoves(s.series, s.calls[i]);
    assert |s.series| == |s.series.Keys| && |s'.series| == |s'.series.Keys|;
    forall j | 0 <= j < |s'.calls| ensures CallSound(s'.calls[j], s'.series) {
      assert CallSound(s.calls[j], s.series);
    }
  }

  lemma AdmittedStays(calls: seq<Call>, i: nat, next: Next, l: Labels)
    requires i < |calls| && Stage(calls[i].next) <= Stage(next) && Admitted(calls, l)
    ensures Admitted(calls[i := calls[i].(next := next)], l)
  {
    var calls' := calls[i := calls[i].(next := next)];
    var j :| 0 <= j < |calls| && calls[j].labels == l && Stage(calls[j].next) >= 1;
    assert calls'[j].labels == l && Stage(calls'[j].next) >= 1;
  }

  lemma OtherSeriesStays(s: State, i: nat, l: Labels)
    requires i < |s.calls| && CallSound(s.calls[i], s.series) && |s.series| <= MAX_CARDINALITY
    requires SeriesSound(s.calls, s.series, l) && l != s.calls[i].labels
    ensures SeriesSound(Step(s, Advance(i)).calls, Step(s, Advance(i)).series, l)
  {
    OperateMoves(s.series, s.calls[i]);
    var next := Operate(s.series, s.calls[i]).1;
    ContributionMoves(s.calls, i, next, l);
    if l in s.series {
      AdmittedStays(s.calls, i, next, l);
    }
  }

  lemma OwnSeriesMoves(s: State, i: nat, l: Labels)
    requires i < |s.calls| && CallSound(s.calls[i], s.series) && |s.series| <= MAX_CARDINALITY
    requires SeriesSound(s.calls, s.series, l) && l == s.calls[i].labels
    ensures SeriesSound(Step(s, Advance(i)).calls, Step(s, Advance(i)).series, l)
  {
    OperateMoves(s.series, s.calls[i]);
    var next := Operate(s.series, s.calls[i]).1;
    ContributionMoves(s.calls, i, next, l);
    var calls' := s.calls[i := s.calls[i].(next := next)];
    if l in s.series {
      AdmittedStays(s.calls, i, next, l);
    } else {
      assert calls'[i].labels == l && Stage(calls'[i].next) == Stage(next);
    }
  }

  lemma AdvanceKeepsSeries(s: State, i: nat, l: Labels)
    requires Inv(s) && i < |s.calls|
    ensures SeriesSound(Step(s, Advance(i)).calls, Step(s, Advance(i)).series, l)
  {
    assert CallSound(s.calls[i], s.series) && SeriesSound(s.calls, s.series, l);
    if l == s.calls[i].labels {
      OwnSeriesMoves(s, i, l);
    } else {
      OtherSeriesStays(s, i, l);
    }
  }

  lemma AdvanceKeepsInv(s: State, i: nat)
    requires Inv(s) && i < |s.calls|
    ensures Inv(Step(s, Advance(i)))
  {
    AdvanceKeepsCalls(s, i);
    forall l ensures SeriesSound(Step(s, Advance(i)).calls, Step(s, Advance(i)).series, l) {
      AdvanceKeepsSeries(s, i, l);
    }
  }

  /** A call that has only begun contributes nothing. */
  lemma StartContributesNothing(calls: seq<Call>, c: Call, l: Labels)
    requires c.next == Lookup
    ensures Contributed(calls + [c], l) == Contributed(calls, l)
    ensures Admitted(calls, l) ==> Admitted(calls + [c], l)
  {
    assert (calls + [c])[..|calls|] == calls;
    if Admitted(calls, l) {
      var j :| 0 <= j < |calls| && calls[j].labels == l && Stage(calls[j].next) >= 1;
      assert (calls + [c])[j] == calls[j];
    }
  }

  lemma StartKeepsInv(s: State, labels: Labels, us: Micros)
    requires Inv(s)
    ensures Inv(Step(s, Start(labels, us)))
  {
    forall l ensures SeriesSound(s.calls + [Call(labels, us, Lookup)], s.series, l) {
      assert SeriesSound(s.calls, s.series, l);
      StartContributesNothing(s.calls, Call(labels, us, Lookup), l);
    }
  }

  lemma {:induction false} RunKeepsInv(events: seq<Event>)
    ensures Inv(Run(events))
    decreases |events|
  {
    if events != [] {
      var before := events[..|events| - 1];
      RunKeepsInv(before);
      match events[|events| - 1]
      case Start(labels, us) => StartKeepsInv(Run(before), labels, us);
      case Advance(i) =>
        if i < |Run(before).calls| {
          AdvanceKeepsInv(Run(before), i);
        }
    }
  }

  // ----- the promise -----

  /** The durations observed on one series: read off the trace, with no reference to the machine. */
  function Durations(events: seq<Event>, labels: Labels): seq<int>
    decreases |events|
  {
    if events == [] then []
    else
      var e := events[|events| - 1];
      Durations(events[..|events| - 1], labels) + if e.Start? && e.labels == labels then [e.us as int] else []
  }

  function Total(ds: seq<int>): int
    decreases |ds|
  {
    if ds == [] then 0 else Total(ds[..|ds| - 1]) + ds[|ds| - 1]
  }

  function Observed(calls: seq<Call>, labels: Labels): seq<int>
    decreases |calls|
  {
    if calls == [] then []
    else
      var c := calls[|calls| - 1];
      Observed(calls[..|calls| - 1], labels) + if c.labels == labels then [c.us as int] else []
  }

  lemma {:induction false} ObservedIgnoresProgress(calls: seq<Call>, i: nat, next: Next, labels: Labels)
    requires i < |calls|
    ensures Observed(calls[i := calls[i].(next := next)], labels) == Observed(calls, labels)
    decreases |calls|
  {
    var k := |calls| - 1;
    var calls' := calls[i := calls[i].(next := next)];
    if i == k {
      assert calls'[..k] == calls[..k];
    } else {
      assert calls'[..k] == calls[..k][i := calls[i].(next := next)];
      ObservedIgnoresProgress(calls[..k], i, next, labels);
    }
  }

  lemma {:induction false} CallsAreTheDurations(events: seq<Event>, labels: Labels)
    ensures Observed(Run(events).calls, labels) == Durations(events, labels)
    decreases |events|
  {
    if events != [] {
      var s := Run(events[..|events| - 1]);
      CallsAreTheDurations(events[..|events| - 1], labels);
      match events[|events| - 1]
      case Start(l, us) =>
        assert (s.calls + [Call(l, us, Lookup)])[..|s.calls|] == s.calls;
      case Advance(i) =>
        if i < |s.calls| {
          ObservedIgnoresProgress(s.calls, i, Operate(s.series, s.calls[i]).1, labels);
        }
    }
  }

  ghost predicate Quiescent(s: State) {
    forall i | 0 <= i < |s.calls| :: s.calls[i].next == Done || s.calls[i].next == Dropped
  }

  /** d summarises exactly the durations ds; the maximum is taken together with 0. */
  ghost predicate Summarises(d: Data, ds: seq<int>) {
    && d.count == |ds| && d.sum == Total(ds)
    && (forall x | x in ds :: d.min <= x <= d.max)
    && (d.min == MAX_INT64 || d.min in ds) && (d.max == 0 || d.max in ds)
    && d.max >= 0 && d.min <= MAX_INT64
  }

  lemma TotalOneMore(ds: seq<int>, x: int)
    ensures Total(ds + [x]) == Total(ds) + x
  {
    assert (ds + [x])[..|ds + [x]| - 1] == ds;
  }

  lemma SummariseOneMore(d: Data, ds: seq<int>, c: Call)
    requires Summarises(d, ds) && c.next == Done
    ensures Summarises(Add(d, c), ds + [c.us as int])
  {
    TotalOneMore(ds, c.us as int);
  }

  lemma {:induction false} FinishedCallsSummarise(calls: seq<Call>, labels: Labels)
    requires forall i | 0 <= i < |calls| && calls[i].labels == labels :: calls[i].next == Done
    ensures Summarises(Contributed(calls, labels), Observed(calls, labels))
    decreases |calls|
  {
    if calls != [] {
      var k := |calls| - 1;
      FinishedCallsSummarise(calls[..k], labels);
      if calls[k].labels == labels {
        SummariseOneMore(Contributed(calls[..k], labels), Observed(calls[..k], labels), calls[k]);
      } else {
        assert Observed(calls[..k], labels) + [] == Observed(calls[..k], labels);
      }
    }
  }

  lemma {:induction false} ObservedHas(calls: seq<Call>, labels: Labels, i: nat)
    requires i < |calls| && calls[i].labels == labels
    ensures calls[i].us as int in Observed(calls, labels)
    decreases |calls|
  {
    if i < |calls| - 1 {
      ObservedHas(calls[..|calls| - 1], labels, i);
    }
  }

  lemma {:induction false} ObservedBounded(calls: seq<Call>, labels: Labels)
    ensures forall x | x in Observed(calls, labels) :: x <= MAX_INT64
    decreases |calls|
  {
    if calls != [] {
      ObservedBounded(calls[..|calls| - 1], labels);
    }
  }

  ghost predicate ExactUpToZero(d: Data, ds: seq<int>) {
    && ds != [] && d.count == |ds| && d.sum == Total(ds)
    && d.min in ds && (forall x | x in ds :: d.min <= x)
    && (forall x | x in ds :: x <= d.max)
    && (d.max in ds <==> exists x :: x in ds && x >= 0)
    && (d.max !in ds ==> d.max == 0)
  }

  lemma SummaryOfSome(d: Data, ds: seq<int>)
    requires Summarises(d, ds) && ds != [] && forall x | x in ds :: x <= MAX_INT64
    ensures ExactUpToZero(d, ds)
  {
    assert ds[0] in ds && d.min <= ds[0] <= MAX_INT64;
    assert d.min == MAX_INT64 ==> ds[0] == d.min;
  }

  lemma SoundAndQuiescentIsDone(s: State, labels: Labels)
    requires Inv(s) && Quiescent(s) && labels in s.series
    ensures forall i | 0 <= i < |s.calls| && s.calls[i].labels == labels :: s.calls[i].next == Done
    ensures Observed(s.calls, labels) != []
  {
    forall i | 0 <= i < |s.calls| && s.calls[i].labels == labels ensures s.calls[i].next == Done {
      assert CallSound(s.calls[i], s.series);
    }
    assert SeriesSound(s.calls, s.series, labels);
    var i :| 0 <= i < |s.calls| && s.calls[i].labels == labels && Stage(s.calls[i].next) >= 1;
    ObservedHas(s.calls, labels, i);
  }

  /**
    For any interleaving: whenever no call is in progress, every admitted series holds the count, the
    sum and the minimum of exactly the durations observed on it, and their maximum exactly when at
    least one of them is not negative.
  */
  lemma QuiescentSeriesAreExact(events: seq<Event>, labels: Labels)
    requires Quiescent(Run(events)) && labels in Run(events).series
    ensures ExactUpToZero(Run(events).series[labels], Durations(events, labels))
  {
    RunKeepsInv(events);
    CallsAreTheDurations(events, labels);
    var s := Run(events);
    assert SeriesSound(s.calls, s.series, labels);
    SoundAndQuiescentIsDone(s, labels);
    FinishedCallsSummarise(s.calls, labels);
    ObservedBounded(s.calls, labels);
    SummaryOfSome(s.series[labels], Durations(events, labels));
  }

  /** At every moment, quiescent or not, the number of series is within the cap. */
  lemma CardinalityIsCapped(events: seq<Event>)
    ensures |Run(events).series| <= 1000
  {
    RunKeepsInv(events);
  }

  /** A call gives its duration up only for a series that is not there, and only when a thousand others are. */
  lemma DroppedOnlyWhenFull(events: seq<Event>, i: nat)
    requires i < |Run(events).calls| && Run(events).calls[i].next == Dropped
    ensures |Run(events).series| == 1000 && Run(events).calls[i].labels !in Run(events).series
  {
    RunKeepsInv(events);
    assert CallSound(Run(events).calls[i], Run(events).series);
  }

  // ----- the object, with one call at a time -----

  /** The data with one more duration in it. */
  function Taken(d: Data, us: int): Data {
    Data(d.count + 1, d.sum + us, Min(d.min, us), Max(d.max, us))
  }

  /** What one undisturbed call does to the series. */
  function Observe(series: map<Labels, Data>, labels: Labels, us: Micros): map<Labels, Data> {
    if labels !in series && |series| >= MAX_CARDINALITY then series
    else
      var d := if labels in series then series[labels] else EMPTY;
      series[labels := Taken(d, us)]
  }

  class SummaryData {
    var count: int
    var sum: int
    var min: int
    var max: int

    function View(): Data
      reads this
    {
      Data(count, sum, min, max)
    }

    constructor ()
      ensures View() == EMPTY
    {
      count, sum, min, max := 0, 0, MAX_INT64, 0;
    }

    method SwapMin(seen: int, us: int) returns (swapped: bool)
      modifies this`min
      ensures swapped <==> old(min) == seen
      ensures min == if swapped then us else old(min)
    {
      swapped := min == seen;
      if swapped {
        min := us;
      }
    }

    method SwapMax(seen: int, us: int) returns (swapped: bool)
      modifies this`max
      ensures swapped <==> old(max) == seen
      ensures max == if swapped then us else old(max)
    {
      swapped := max == seen;
      if swapped {
        max := us;
      }
    }

    /** The atomic part of Observe; undisturbed, neither retry loop goes round a second time. */
    method Take(us: Micros)
      modifies this
      ensures View() == Taken(old(View()), us)
    {
      count := count + 1;
      sum := sum + us;
      var settled := false;
      while !settled
        invariant View() == Data(old(count) + 1, old(sum) + us,
                                 if settled then Min(old(min), us) else old(min), old(max))
        decreases !settled
      {
        var seen := min;
        settled := us >= seen;
        if !settled {
          settled := SwapMin(seen, us);
        }
      }
      settled := false;
      while !settled
        invariant View() == Data(old(count) + 1, old(sum) + us, Min(old(min), us),
                                 if settled then Max(old(max), us) else old(max))
        decreases !settled
      {
        var seen := max;
        settled := us <= seen;
        if !settled {
          settled := SwapMax(seen, us);
        }
      }
    }
  }

  class Summary {
    var series: map<Labels, SummaryData>

    ghost function View(): map<Labels, Data>
      reads this, series.Values
    {
      map l | l in series :: series[l].View()
    }

    /** No two series share their data. */
    ghost predicate Valid()
      reads this
    {
      && |series| <= MAX_CARDINALITY
      && forall a, b | a in series && b in series && a != b :: series[a] != series[b]
    }

    constructor ()
      ensures Valid() && View() == map[]
    {
      series := map[];
    }

    method ObserveDuration(labels: Labels, us: Micros)
      requires Valid()
      modifies this, series.Values
      ensures Valid() && View() == Observe(old(View()), labels, us)
    {
      assert |View()| == |series| by {
        assert View().Keys == series.Keys;
      }
      if labels !in series {
        if |series| >= MAX_CARDINALITY {
          return;
        }
        Admit(labels);
      }
      TakeInto(labels, us);
    }

    method Admit(labels: Labels)
      requires Valid() && labels !in series && |series| < MAX_CARDINALITY
      modifies this
      ensures Valid() && View() == old(View())[labels := EMPTY]
      ensures labels in series && fresh(series.Values - old(series.Values))
    {
      var data := new SummaryData();
      Place(labels, data);
    }

    method Place(labels: Labels, data: SummaryData)
      requires labels !in series
      modifies this
      ensures series == old(series)[labels := data]
      ensures View() == old(View())[labels := data.View()]
    {
      series := series[labels := data];
    }

    method TakeInto(labels: Labels, us: Micros)
      requires Valid() && labels in series
      modifies series[labels]
      ensures View() == old(View())[labels := Taken(old(View())[labels], us)]
    {
      series[labels].Take(us);
    }
  }

  // ----- the object's call is the machine's call, run alone -----

  function Advances(s: State, i: nat, n: nat): State
    decreases n
  {
    if n == 0 then s else Advances(Step(s, Advance(i)), i, n - 1)
  }

  lemma AdvanceOnce(s: State, i: nat, n: nat)
    requires n > 0
    ensures Advances(s, i, n) == Advances(Step(s, Advance(i)), i, n - 1)
  {
  }

  lemma {:induction false} FinishedStays(s: State, i: nat, n: nat)
    requires i < |s.calls| && (s.calls[i].next == Done || s.calls[i].next == Dropped)
    ensures Advances(s, i, n) == s
    decreases n
  {
    if n > 0 {
      assert Step(s, Advance(i)) == s;
      FinishedStays(s, i, n - 1);
    }
  }

  ghost predicate At(s: State, i: nat, c: Call, series: map<Labels, Data>) {
    i < |s.calls| && s.calls[i] == c && c.labels in series && s.series == series
  }

  /** One operation on the data of a series that exists. */
  function OperateData(d: Data, us: int, next: Next): (Data, Next) {
    match next
    case AddCount => (d.(count := d.count + 1), AddSum)
    case AddSum => (d.(sum := d.sum + us), LoadMin)
    case LoadMin => (d, if us >= d.min then LoadMax else SwapMin(d.min))
    case SwapMin(seen) => if d.min == seen then (d.(min := us), LoadMax) else (d, LoadMin)
    case LoadMax => (d, if us <= d.max then Done else SwapMax(d.max))
    case SwapMax(seen) => if d.max == seen then (d.(max := us), Done) else (d, LoadMax)
    case _ => (d, next)
  }

  function OperatesData(d: Data, us: int, next: Next, n: nat): (Data, Next)
    decreases n
  {
    if n == 0 then (d, next)
    else
      var (d', next') := OperateData(d, us, next);
      OperatesData(d', us, next', n - 1)
  }

  lemma Overwrites(series: map<Labels, Data>, labels: Labels, first: Data, second: Data)
    ensures series[labels := first][labels := second] == series[labels := second]
  {
  }

  lemma MovesOnce(s: State, i: nat, c: Call, base: map<Labels, Data>, d: Data)
    requires Stage(c.next) >= 1 && At(s, i, c, base[c.labels := d])
    ensures var (d', next') := OperateData(d, c.us, c.next);
            At(Step(s, Advance(i)), i, c.(next := next'), base[c.labels := d']) && Stage(next') >= 1
    ensures |Step(s, Advance(i)).calls| == |s.calls|
  {
    Overwrites(base, c.labels, d, OperateData(d, c.us, c.next).0);
  }

  /** Undisturbed, an admitted call changes its own series as the operations change the data alone. */
  lemma {:induction false} MovesAlone(s: State, i: nat, c: Call, base: map<Labels, Data>, d: Data, n: nat)
    requires Stage(c.next) >= 1 && At(s, i, c, base[c.labels := d])
    ensures var (d', next') := OperatesData(d, c.us, c.next, n);
            At(Advances(s, i, n), i, c.(next := next'), base[c.labels := d'])
    ensures |Advances(s, i, n).calls| == |s.calls|
    decreases n
  {
    if n > 0 {
      MovesOnce(s, i, c, base, d);
      var (d', next') := OperateData(d, c.us, c.next);
      MovesAlone(Step(s, Advance(i)), i, c.(next := next'), base, d', n - 1);
    }
  }

  lemma {:induction false} DoneStays(d: Data, us: int, n: nat)
    ensures OperatesData(d, us, Done, n) == (d, Done)
    decreases n
  {
    if n > 0 {
      DoneStays(d, us, n - 1);
    }
  }

  lemma MaxPhase(d: Data, us: int, n: nat)
    requires n >= 2
    ensures OperatesData(d, us, LoadMax, n) == (d.(max := Max(d.max, us)), Done)
  {
    if us <= d.max {
      DoneStays(d, us, n - 1);
    } else {
      assert OperatesData(d, us, LoadMax, n) == OperatesData(d, us, SwapMax(d.max), n - 1);
      DoneStays(d.(max := us), us, n - 2);
    }
  }

  lemma MinPhase(d: Data, us: int, n: nat)
    requires n >= 4
    ensures OperatesData(d, us, LoadMin, n) == (d.(min := Min(d.min, us), max := Max(d.max, us)), Done)
  {
    if us >= d.min {
      MaxPhase(d, us, n - 1);
    } else {
      assert OperatesData(d, us, LoadMin, n) == OperatesData(d, us, SwapMin(d.min), n - 1);
      MaxPhase(d.(min := us), us, n - 2);
    }
  }

  lemma AddPhase(d: Data, us: int, n: nat)
    requires n >= 6
    ensures OperatesData(d, us, AddCount, n) == (Taken(d, us), Done)
  {
    var counted := d.(count := d.count + 1);
    assert OperatesData(d, us, AddCount, n) == OperatesData(counted, us, AddSum, n - 1);
    MinPhase(counted.(sum := d.sum + us), us, n - 2);
  }

  lemma CountPhase(s: State, i: nat, labels: Labels, us: Micros, base: map<Labels, Data>, d: Data, n: nat)
    requires n >= 6 && At(s, i, Call(labels, us, AddCount), base[labels := d])
    ensures At(Advances(s, i, n), i, Call(labels, us, Done), base[labels := Taken(d, us)])
    ensures |Advances(s, i, n).calls| == |s.calls|
  {
    MovesAlone(s, i, Call(labels, us, AddCount), base, d, n);
    AddPhase(d, us, n);
  }

  /** Eight operations, or more, finish a call that nothing disturbs, and together they are Observe. */
  lemma UndisturbedCall(s: State, labels: Labels, us: Micros, n: nat)
    requires n >= 8
    ensures var i := |s.calls|;
            var s' := Advances(Step(s, Start(labels, us)), i, n);
            && s'.series == Observe(s.series, labels, us)
            && |s'.calls| == i + 1 && (s'.calls[i].next == Done || s'.calls[i].next == Dropped)
  {
    var i := |s.calls|;
    var s0 := Step(s, Start(labels, us));
    var s1 := Step(s0, Advance(i));
    var s2 := Step(s1, Advance(i));
    AdvanceOnce(s0, i, n);
    if labels in s.series {
      assert s.series[labels := s.series[labels]] == s.series;
      CountPhase(s1, i, labels, us, s.series, s.series[labels], n - 1);
    } else {
      AdvanceOnce(s1, i, n - 1);
      if |s.series| >= MAX_CARDINALITY {
        FinishedStays(s2, i, n - 2);
      } else {
        CountPhase(s2, i, labels, us, s.series, EMPTY, n - 2);
      }
    }
  }
}
