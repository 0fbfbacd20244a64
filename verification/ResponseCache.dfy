/**
  The response cache (internal/cache/cache.go): a time to live, a size limit with eviction of the
  entry that expires first, and a background pass that removes what has expired.  When several
  entries expire at the same instant Go's map order decides; here the choice is part of the event.
*/
module ResponseCache {
  import opened Options

  datatype Entry = Entry(status: int, body: seq<int>, expiresAt: int)

  type Entries = map<string, Entry>

  function Get(entries: Entries, key: string, now: int): Option<Entry> {
    if key in entries && now <= entries[key].expiresAt then Some(entries[key]) else None
  }

  ghost predicate IsOldest(entries: Entries, key: string) {
    key in entries && forall k | k in entries :: entries[key].expiresAt <= entries[k].expiresAt
  }

  /** The scan takes the empty string for "nothing found yet", so it forgets an entry stored under it. */
  ghost predicate EmptyKeyIsFirst(entries: Entries) {
    "" in entries && forall k | k in entries && k != "" :: entries[""].expiresAt < entries[k].expiresAt
  }

  /** What the scan may find: an oldest entry, or any at all when that would be the one under the empty key. */
  ghost predicate MayBeFound(entries: Entries, key: string) {
    key in entries && (IsOldest(entries, key) || EmptyKeyIsFirst(entries))
  }

  /** Set, given the entry that makes room: even replacing a key makes room first when the cache is full. */
  function Put(entries: Entries, maxSize: int, key: string, e: Entry, victim: string): Entries {
    (if |entries| >= maxSize then entries - {victim} else entries)[key := e]
  }

  function Reaped(entries: Entries, now: int): Entries {
    map k | k in entries && now <= entries[k].expiresAt :: entries[k]
  }

  class Cache {
    const ttl: int
    const maxSize: int
    var entries: Entries

    constructor (ttl: int, maxSize: int)
      ensures this.ttl == ttl && this.maxSize == maxSize && entries == map[]
    {
      this.ttl, this.maxSize, entries := ttl, maxSize, map[];
    }

    method Lookup(key: string, now: int) returns (e: Option<Entry>)
      ensures e == Get(entries, key, now)
      ensures e == if key in entries && now <= entries[key].expiresAt then Some(entries[key]) else None
    {
      if key !in entries || now > entries[key].expiresAt {
        return None;
      }
      return Some(entries[key]);
    }

    /** The scan for the entry to evict, in the order in which the map is walked. */
    method FindOldest() returns (victim: string)
      ensures entries != map[] ==> MayBeFound(entries, victim)
    {
      victim := "";
      var oldestTime := 0;
      var todo := entries.Keys;
      while todo != {}
        invariant todo <= entries.Keys
        invariant victim != "" ==> victim in entries && oldestTime == entries[victim].expiresAt
        invariant victim == "" ==> todo == entries.Keys || ("" in entries && "" !in todo)
        invariant forall k | k in entries && k !in todo && k != ""
                             && ("" in entries ==> entries[k].expiresAt <= entries[""].expiresAt) ::
                    victim != "" && oldestTime <= entries[k].expiresAt
      {
        var k :| k in todo;
        if victim == "" || entries[k].expiresAt < oldestTime {
          victim := k;
          oldestTime := entries[k].expiresAt;
        }
        todo := todo - {k};
      }
    }

    method Set(key: string, status: int, body: seq<int>, now: int) returns (victim: string)
      modifies this`entries
      ensures entries == Step(Config(ttl, maxSize), old(entries), SetKey(key, status, body, now, victim))
      ensures entries == Put(old(entries), maxSize, key, Entry(status, body, now + ttl), victim)
      ensures |old(entries)| >= maxSize && old(entries) != map[] ==> MayBeFound(old(entries), victim)
    {
      victim := "";
      if |entries| >= maxSize {
        victim := FindOldest();
        entries := entries - {victim};
      }
      entries := entries[key := Entry(status, body, now + ttl)];
    }

    method ReapPass(now: int)
      modifies this`entries
      ensures entries == Step(Config(ttl, maxSize), old(entries), Reap(now))
      ensures forall k :: k in entries <==> k in old(entries) && now <= old(entries)[k].expiresAt
      ensures forall k | k in entries :: entries[k] == old(entries)[k]
    {
      var found := entries;
      var todo := found.Keys;
      while todo != {}
        invariant todo <= entries.Keys <= found.Keys
        invariant forall k | k in found :: k in entries <==> k in todo || now <= found[k].expiresAt
        invariant forall k | k in entries :: entries[k] == found[k]
      {
        var k :| k in todo;
        if now > entries[k].expiresAt {
          entries := entries - {k};
        }
        todo := todo - {k};
      }
    }
  }

  // ----- runs -----

  datatype Event =
    | SetKey(key: string, status: int, body: seq<int>, at: int, victim: string)
    | Reap(at: int)

  datatype Config = Config(ttl: int, maxSize: int)

  function Stored(c: Config, e: Event): Entry
    requires e.SetKey?
  {
    Entry(e.status, e.body, e.at + c.ttl)
  }

  function Step(c: Config, entries: Entries, e: Event): Entries {
    match e
    case SetKey(key, _, _, _, victim) => Put(entries, c.maxSize, key, Stored(c, e), victim)
    case Reap(at) => Reaped(entries, at)
  }

  /** The victim is one that the scan may choose; the pass runs only with a positive time to live. */
  ghost predicate Legal(c: Config, entries: Entries, e: Event) {
    match e
    case SetKey(_, _, _, _, victim) => |entries| >= c.maxSize ==> IsOldest(entries, victim)
    case Reap(_) => c.ttl > 0
  }

  function Run(c: Config, entries: Entries, events: seq<Event>): Entries
    decreases |events|
  {
    if events == [] then entries
    else Step(c, Run(c, entries, events[..|events| - 1]), events[|events| - 1])
  }

  ghost predicate LegalRun(c: Config, entries: Entries, events: seq<Event>)
    decreases |events|
  {
    events == [] ||
    (LegalRun(c, entries, events[..|events| - 1])
     && Legal(c, Run(c, entries, events[..|events| - 1]), events[|events| - 1]))
  }

  ghost predicate Chronological(events: seq<Event>) {
    forall i, j | 0 <= i < j < |events| :: events[i].at <= events[j].at
  }

  /** The last Set of a key, read off the trace. */
  function LastSet(c: Config, events: seq<Event>, key: string): Option<Entry>
    decreases |events|
  {
    if events == [] then None
    else
      var e := events[|events| - 1];
      if e.SetKey? && e.key == key then Some(Stored(c, e)) else LastSet(c, events[..|events| - 1], key)
  }

  lemma {:induction false} LastSetIsPast(c: Config, events: seq<Event>, key: string)
    requires events != [] && Chronological(events) && LastSet(c, events, key).Some?
    ensures LastSet(c, events, key).value.expiresAt <= events[|events| - 1].at + c.ttl
    decreases |events|
  {
    var e, before := events[|events| - 1], events[..|events| - 1];
    if !(e.SetKey? && e.key == key) {
      assert before[|before| - 1] == events[|events| - 2];
      LastSetIsPast(c, before, key);
    }
  }

  lemma SizeAfterStep(c: Config, entries: Entries, e: Event)
    requires c.maxSize >= 1 && |entries| <= c.maxSize && Legal(c, entries, e)
    ensures |Step(c, entries, e)| <= c.maxSize
  {
    match e
    case SetKey(key, _, _, _, victim) =>
      var room := if |entries| >= c.maxSize then entries - {victim} else entries;
      assert room.Keys == if |entries| >= c.maxSize then entries.Keys - {victim} else entries.Keys;
      assert |room| == |room.Keys| < c.maxSize;
      assert Step(c, entries, e).Keys == room.Keys + {key};
      assert |room.Keys + {key}| <= |room.Keys| + 1;
    case Reap(_) =>
      KeysShrink(Step(c, entries, e).Keys, entries.Keys);
  }

  lemma {:induction false} KeysShrink(a: set<string>, b: set<string>)
    requires a <= b
    ensures |a| <= |b|
  {
    assert b == a + (b - a) && a !! (b - a);
  }

  ghost predicate Faithful(c: Config, events: seq<Event>, entries: Entries) {
    && (forall k | k in entries :: LastSet(c, events, k) == Some(entries[k]))
    && (forall k, kept | k !in entries && kept in entries && LastSet(c, events, k).Some? ::
          LastSet(c, events, k).value.expiresAt <= entries[kept].expiresAt)
  }

  lemma StepStaysFaithful(c: Config, events: seq<Event>, e: Event, entries: Entries)
    requires Chronological(events + [e]) && Faithful(c, events, entries) && Legal(c, entries, e)
    requires forall k | k in entries :: LastSet(c, events, k).Some?
    ensures Faithful(c, events + [e], Step(c, entries, e))
  {
    var all, entries' := events + [e], Step(c, entries, e);
    assert all[..|all| - 1] == events;
    forall k, kept | k !in entries' && kept in entries' && LastSet(c, all, k).Some?
      ensures LastSet(c, all, k).value.expiresAt <= entries'[kept].expiresAt
    {
      assert LastSet(c, all, k) == LastSet(c, events, k);
      if e.SetKey? && kept == e.key {
        LastSetIsPast(c, all, k);
      } else if k in entries && e.SetKey? {
        assert IsOldest(entries, k);
      }
    }
  }

  /**
    Over any run, from an empty cache of size at least 1: the size never exceeds the limit, what is
    stored under a key is its latest Set, and a key that was Set is absent only if every key that is
    present expires no earlier than that Set did.
  */
  lemma {:induction false} CacheIsFaithful(c: Config, events: seq<Event>)
    requires c.maxSize >= 1 && LegalRun(c, map[], events) && Chronological(events)
    ensures |Run(c, map[], events)| <= c.maxSize
    ensures Faithful(c, events, Run(c, map[], events))
    decreases |events|
  {
    if events != [] {
      var before, e := events[..|events| - 1], events[|events| - 1];
      CacheIsFaithful(c, before);
      SizeAfterStep(c, Run(c, map[], before), e);
      assert before + [e] == events;
      StepStaysFaithful(c, before, e, Run(c, map[], before));
    }
  }

  /** Get answers with the latest Set of the key, within its time to live, or not at all. */
  lemma GetIsLatestAndLive(c: Config, events: seq<Event>, key: string, now: int)
    requires c.maxSize >= 1 && LegalRun(c, map[], events) && Chronological(events)
    ensures var got := Get(Run(c, map[], events), key, now);
            got.Some? ==> LastSet(c, events, key) == got && now <= got.value.expiresAt
  {
    CacheIsFaithful(c, events);
  }

  // ----- what a Set costs the other keys -----

  /** A Set of the key cannot push out another one: there is room, or the key itself is the one that must go. */
  ghost predicate Roomy(c: Config, entries: Entries, key: string) {
    || |entries| < c.maxSize
    || (key in entries && forall k | k in entries && k != key :: entries[key].expiresAt < entries[k].expiresAt)
  }

  ghost predicate OthersKept(c: Config, entries: Entries, e: Event)
    requires e.SetKey?
  {
    forall k | k in entries && k != e.key :: k in Step(c, entries, e) && Step(c, entries, e)[k] == entries[k]
  }

  /** Whichever of the oldest entries is chosen, every other entry is kept by a Set exactly when it is roomy. */
  lemma SetLosesNothingExactlyWhen(c: Config, entries: Entries, e: Event)
    requires c.maxSize >= 1 && e.SetKey?
    ensures (forall victim | Legal(c, entries, e.(victim := victim)) :: OthersKept(c, entries, e.(victim := victim)))
            <==> Roomy(c, entries, e.key)
  {
    if !Roomy(c, entries, e.key) {
      assert entries != map[];
      var victim := OldestExists(entries);
      if victim == e.key {
        victim :| victim in entries && victim != e.key && entries[victim].expiresAt <= entries[e.key].expiresAt;
      }
      assert Legal(c, entries, e.(victim := victim));
      assert victim !in Step(c, entries, e.(victim := victim));
    }
  }

  /** Every Set of the run is roomy when its turn comes. */
  ghost predicate RoomyRun(c: Config, events: seq<Event>) {
    forall i | 0 <= i < |events| && events[i].SetKey? :: Roomy(c, Run(c, map[], events[..i]), events[i].key)
  }

  /** When every Set is roomy nothing is lost: whatever is still alive is answered. */
  lemma {:induction false} NothingIsLostWithRoom(c: Config, events: seq<Event>, key: string, now: int)
    requires LegalRun(c, map[], events) && RoomyRun(c, events)
    requires forall i | 0 <= i < |events| :: events[i].at <= now
    requires LastSet(c, events, key).Some? && now <= LastSet(c, events, key).value.expiresAt
    ensures Get(Run(c, map[], events), key, now) == LastSet(c, events, key)
    decreases |events|
  {
    var before, e := events[..|events| - 1], events[|events| - 1];
    if !(e.SetKey? && e.key == key) {
      forall i | 0 <= i < |before| && before[i].SetKey?
        ensures Roomy(c, Run(c, map[], before[..i]), before[i].key)
      {
        assert before[..i] == events[..i];
      }
      NothingIsLostWithRoom(c, before, key, now);
    }
  }

  const TWO: Config := Config(100, 2)
  const STORED: seq<Event> := [SetKey("a", 200, [], 0, ""), SetKey("b", 200, [], 1, "")]
  const AGAIN: Event := SetKey("b", 200, [], 2, "a")

  lemma StoredBoth()
    ensures LegalRun(TWO, map[], STORED) && Chronological(STORED)
    ensures Run(TWO, map[], STORED) == map["a" := Entry(200, [], 100)]["b" := Entry(200, [], 101)]
    ensures LastSet(TWO, STORED, "a") == Some(Entry(200, [], 100))
  {
    var first := STORED[..1];
    assert STORED[..|STORED| - 1] == first && first[..|first| - 1] == [];
    assert Run(TWO, map[], []) == map[] && LegalRun(TWO, map[], []);
    assert Run(TWO, map[], first) == map["a" := Entry(200, [], 100)] && LegalRun(TWO, map[], first);
    assert LastSet(TWO, first, "a") == Some(Entry(200, [], 100));
  }

  /** Two keys in a cache for two: replacing the newer one pushes out the older one, which is still alive. */
  lemma ReplacingLosesAnother()
    ensures var events := STORED + [AGAIN];
            && LegalRun(TWO, map[], events) && Chronological(events)
            && LastSet(TWO, events, "a") == Some(Entry(200, [], 100))
            && Get(Run(TWO, map[], events), "a", 3) == None
  {
    StoredBoth();
    RunOneMore(TWO, map[], STORED, AGAIN);
    assert (STORED + [AGAIN])[..|STORED + [AGAIN]| - 1] == STORED;
    var entries := Run(TWO, map[], STORED);
    assert IsOldest(entries, "a");
    assert Step(TWO, entries, AGAIN) == Put(entries, 2, "b", Entry(200, [], 102), "a");
  }

  /** With at most as many Sets as there is room for, every Set is roomy. */
  function Sets(events: seq<Event>): nat
    decreases |events|
  {
    if events == [] then 0
    else Sets(events[..|events| - 1]) + if events[|events| - 1].SetKey? then 1 else 0
  }

  lemma {:induction false} FewSetsAreRoomy(c: Config, events: seq<Event>)
    requires Sets(events) <= c.maxSize
    ensures |Run(c, map[], events)| <= Sets(events) && RoomyRun(c, events)
    decreases |events|
  {
    if events != [] {
      var before, e := events[..|events| - 1], events[|events| - 1];
      FewSetsAreRoomy(c, before);
      AtMostOneMore(c, Run(c, map[], before), e);
      forall i | 0 <= i < |events| && events[i].SetKey?
        ensures Roomy(c, Run(c, map[], events[..i]), events[i].key)
      {
        if i < |before| {
          assert events[..i] == before[..i] && events[i] == before[i];
        }
      }
    }
  }

  lemma AtMostOneMore(c: Config, entries: Entries, e: Event)
    ensures |Step(c, entries, e)| <= |entries| + if e.SetKey? then 1 else 0
  {
    var after := Step(c, entries, e);
    assert |after| == |after.Keys| && |entries| == |entries.Keys|;
    if e.SetKey? {
      KeysShrink(after.Keys, entries.Keys + {e.key});
    } else {
      KeysShrink(after.Keys, entries.Keys);
    }
  }

  // ----- the reap pass is invisible -----

  /** The same Sets and passes; only the choices among equally old victims may differ. */
  ghost predicate SameCalls(a: seq<Event>, b: seq<Event>) {
    |a| == |b| && forall i | 0 <= i < |a| ::
      if a[i].SetKey? then b[i].SetKey? && b[i] == a[i].(victim := b[i].victim) else b[i] == a[i]
  }

  /** narrow lacks only entries of wide that had expired by t. */
  ghost predicate Narrower(wide: Entries, narrow: Entries, t: int) {
    forall k | k in narrow || k in wide ::
      && k in wide
      && (if k in narrow then narrow[k] == wide[k] && t <= wide[k].expiresAt else wide[k].expiresAt < t)
  }

  lemma NarrowerSizes(wide: Entries, narrow: Entries, t: int)
    requires Narrower(wide, narrow, t)
    ensures |narrow| <= |wide| && (|narrow| == |wide| ==> narrow == wide)
  {
    assert narrow.Keys <= wide.Keys && |wide| == |wide.Keys| && |narrow| == |narrow.Keys|;
    KeysShrink(narrow.Keys, wide.Keys);
    if |narrow| == |wide| {
      assert wide.Keys == narrow.Keys + (wide.Keys - narrow.Keys);
      assert |wide.Keys| == |narrow.Keys| + |wide.Keys - narrow.Keys|;
      assert wide.Keys - narrow.Keys == {};
      assert narrow == wide;
    }
  }

  ghost predicate Match(c: Config, t: int, e: Event, e': Event, wide: Entries, narrow: Entries) {
    && SameCalls([e], [e']) && Legal(c, wide, e) && Legal(c, narrow, e')
    && Narrower(Step(c, wide, e), Step(c, narrow, e'), t)
  }

  lemma StepNarrows(c: Config, t: int, e: Event, e': Event, wide: Entries, narrow: Entries)
    requires Narrower(wide, narrow, t) && c.ttl > 0 && e.at >= t
    requires SameCalls([e], [e'])
    requires e.SetKey? && |wide| >= c.maxSize ==> if |narrow| >= c.maxSize then e' == e else e.victim !in narrow
    requires e.SetKey? && |narrow| >= c.maxSize ==> |wide| >= c.maxSize
    ensures Narrower(Step(c, wide, e), Step(c, narrow, e'), t)
  {
    assert [e][0] == e && [e'][0] == e';
  }

  lemma ExpiredGoFirst(wide: Entries, narrow: Entries, t: int, victim: string)
    requires Narrower(wide, narrow, t) && IsOldest(wide, victim) && |narrow| < |wide|
    ensures victim !in narrow
  {
    assert |wide| == |wide.Keys| && |narrow| == |narrow.Keys|;
    assert narrow.Keys <= wide.Keys && narrow.Keys != wide.Keys;
    var expired :| expired in wide && expired !in narrow;
  }

  lemma {:induction false} OldestExists(entries: Entries) returns (key: string)
    requires entries != map[]
    ensures IsOldest(entries, key)
    decreases |entries|
  {
    var k :| k in entries;
    var rest := entries - {k};
    if rest == map[] {
      assert forall j | j in entries :: j == k by {
        assert forall j | j in entries && j != k :: j in rest;
      }
      key := k;
    } else {
      assert |rest| < |entries| by {
        assert rest.Keys == entries.Keys - {k};
      }
      var other := OldestExists(rest);
      key := if entries[k].expiresAt <= entries[other].expiresAt then k else other;
      assert forall j | j in entries && j != k :: j in rest;
    }
  }

  /** Whatever the full cache does, the reaped one can do. */
  lemma ReapedFollows(c: Config, t: int, e: Event, wide: Entries, narrow: Entries) returns (e': Event)
    requires c.maxSize >= 1 && c.ttl > 0 && e.at >= t
    requires Narrower(wide, narrow, t) && |wide| <= c.maxSize && Legal(c, wide, e)
    ensures Match(c, t, e, e', wide, narrow)
  {
    e' := e;
    NarrowerSizes(wide, narrow, t);
    if e.SetKey? && |wide| >= c.maxSize && |narrow| < |wide| {
      ExpiredGoFirst(wide, narrow, t, e.victim);
    }
    StepNarrows(c, t, e, e', wide, narrow);
  }

  /** Whatever the reaped cache does, the full one can do. */
  lemma ReapedIsFollowed(c: Config, t: int, e': Event, wide: Entries, narrow: Entries) returns (e: Event)
    requires c.maxSize >= 1 && c.ttl > 0 && e'.at >= t
    requires Narrower(wide, narrow, t) && |wide| <= c.maxSize && Legal(c, narrow, e')
    ensures Match(c, t, e, e', wide, narrow)
  {
    e := e';
    NarrowerSizes(wide, narrow, t);
    if e'.SetKey? && |wide| >= c.maxSize && |narrow| < |wide| {
      assert wide != map[];
      var victim := OldestExists(wide);
      ExpiredGoFirst(wide, narrow, t, victim);
      e := e'.(victim := victim);
    }
    StepNarrows(c, t, e, e', wide, narrow);
  }

  ghost predicate SameAnswers(a: Entries, b: Entries, from: int) {
    forall key, now | now >= from :: Get(a, key, now) == Get(b, key, now)
  }

  /**
    Removing the expired entries at time t is never observable: every run of the cache from then on can
    be matched by a run of the reaped cache with the same calls and the same answers at every moment,
    and conversely.
  */
  lemma {:induction false} ReapIsInvisible(c: Config, t: int, entries: Entries, events: seq<Event>)
    requires c.maxSize >= 1 && c.ttl > 0 && |entries| <= c.maxSize
    requires forall i | 0 <= i < |events| :: events[i].at >= t
    ensures LegalRun(c, entries, events) ==>
              exists events' :: SameCalls(events, events') && LegalRun(c, Reaped(entries, t), events')
                && SameAnswers(Run(c, entries, events), Run(c, Reaped(entries, t), events'), t)
    ensures LegalRun(c, Reaped(entries, t), events) ==>
              exists events' :: SameCalls(events', events) && LegalRun(c, entries, events')
                && SameAnswers(Run(c, entries, events'), Run(c, Reaped(entries, t), events), t)
  {
    if LegalRun(c, entries, events) {
      var events' := FollowRun(c, t, entries, events);
    }
    if LegalRun(c, Reaped(entries, t), events) {
      var events' := FollowedRun(c, t, entries, events);
    }
  }

  lemma NarrowerAnswersAlike(wide: Entries, narrow: Entries, t: int)
    requires Narrower(wide, narrow, t)
    ensures SameAnswers(wide, narrow, t)
  {
  }

  lemma SameCallsOneMore(a: seq<Event>, b: seq<Event>, e: Event, e': Event)
    requires SameCalls(a, b) && SameCalls([e], [e'])
    ensures SameCalls(a + [e], b + [e'])
  {
    assert [e][0] == e && [e'][0] == e';
  }

  lemma RunOneMore(c: Config, entries: Entries, events: seq<Event>, e: Event)
    ensures Run(c, entries, events + [e]) == Step(c, Run(c, entries, events), e)
    ensures LegalRun(c, entries, events + [e]) <==>
            LegalRun(c, entries, events) && Legal(c, Run(c, entries, events), e)
  {
    assert (events + [e])[..|events + [e]| - 1] == events;
  }

  lemma {:induction false} FollowRun(c: Config, t: int, entries: Entries, events: seq<Event>)
    returns (events': seq<Event>)
    requires c.maxSize >= 1 && c.ttl > 0 && |entries| <= c.maxSize
    requires forall i | 0 <= i < |events| :: events[i].at >= t
    requires LegalRun(c, entries, events)
    ensures SameCalls(events, events') && LegalRun(c, Reaped(entries, t), events')
    ensures |Run(c, entries, events)| <= c.maxSize
    ensures Narrower(Run(c, entries, events), Run(c, Reaped(entries, t), events'), t)
    ensures SameAnswers(Run(c, entries, events), Run(c, Reaped(entries, t), events'), t)
    decreases |events|
  {
    if events == [] {
      events' := [];
    } else {
      var before, e := events[..|events| - 1], events[|events| - 1];
      var before' := FollowRun(c, t, entries, before);
      var wide, narrow := Run(c, entries, before), Run(c, Reaped(entries, t), before');
      var e' := ReapedFollows(c, t, e, wide, narrow);
      SizeAfterStep(c, wide, e);
      RunOneMore(c, Reaped(entries, t), before', e');
      SameCallsOneMore(before, before', e, e');
      assert events == before + [e];
      events' := before' + [e'];
    }
    NarrowerAnswersAlike(Run(c, entries, events), Run(c, Reaped(entries, t), events'), t);
  }

  lemma {:induction false} FollowedRun(c: Config, t: int, entries: Entries, events: seq<Event>)
    returns (events': seq<Event>)
    requires c.maxSize >= 1 && c.ttl > 0 && |entries| <= c.maxSize
    requires forall i | 0 <= i < |events| :: events[i].at >= t
    requires LegalRun(c, Reaped(entries, t), events)
    ensures SameCalls(events', events) && LegalRun(c, entries, events')
    ensures |Run(c, entries, events')| <= c.maxSize
    ensures Narrower(Run(c, entries, events'), Run(c, Reaped(entries, t), events), t)
    ensures SameAnswers(Run(c, entries, events'), Run(c, Reaped(entries, t), events), t)
    decreases |events|
  {
    if events == [] {
      events' := [];
    } else {
      var before, e' := events[..|events| - 1], events[|events| - 1];
      assert events == before + [e'];
      RunOneMore(c, Reaped(entries, t), before, e');
      var before' := FollowedRun(c, t, entries, before);
      var wide, narrow := Run(c, entries, before'), Run(c, Reaped(entries, t), before);
      var e := ReapedIsFollowed(c, t, e', wide, narrow);
      SizeAfterStep(c, wide, e);
      RunOneMore(c, entries, before', e);
      SameCallsOneMore(before', before, e, e');
      events' := before' + [e];
    }
    NarrowerAnswersAlike(Run(c, entries, events'), Run(c, Reaped(entries, t), events), t);
  }
}
