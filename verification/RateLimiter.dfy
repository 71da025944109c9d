/** The in-memory rate limiter: a bounded queue of timestamps per key, with a background
    sweep that forgets idle keys, against the naive limiter that remembers every admission. */
module RateLimiter {

  datatype Limit = Limit(max: nat, duration: int)

  /** Started only for a positive expiration, of which it counts the whole seconds. */
  datatype Sweeper = Off | Every(seconds: nat)

  datatype Event = Request(key: string, now: int) | Sweep(now: int)
  type Store = map<string, seq<int>>

  ghost predicate NonEmptyQueues(store: Store) {
    forall k | k in store :: store[k] != []
  }

  // ----- The limiter of the source, one step at a time -----

  /** The queue or log of a key; a key that is not stored has the empty one. */
  function Log(logs: Store, key: string): seq<int> {
    if key in logs then logs[key] else []
  }

  predicate QueueAdmits(queue: seq<int>, limit: Limit, now: int) {
    queue == [] || |queue| < limit.max || now - queue[0] >= limit.duration
  }

  function Enqueue(queue: seq<int>, limit: Limit, now: int): seq<int> {
    (if queue == [] || |queue| < limit.max then queue else queue[1..]) + [now]
  }

  predicate Admits(store: Store, key: string, limit: Limit, now: int) {
    QueueAdmits(Log(store, key), limit, now)
  }

  function AfterRequest(store: Store, key: string, limit: Limit, now: int): Store {
    if Admits(store, key, limit, now) then store[key := Enqueue(Log(store, key), limit, now)] else store
  }

  predicate Idle(queue: seq<int>, expiration: int, now: int) {
    queue == [] || now - queue[|queue| - 1] > expiration
  }

  /** Without a sweeper nothing is ever forgotten. */
  function AfterSweep(store: Store, sweeper: Sweeper, now: int): Store {
    if sweeper.Off? then store else map k | k in store && !Idle(store[k], sweeper.seconds, now) :: store[k]
  }

  const NANOSECONDS := 1_000_000_000

  class InMemoryRateLimiter {
    var started: bool
    var store: Store
    var sweeper: Sweeper

    ghost predicate Valid()
      reads this
    {
      NonEmptyQueues(store)
    }

    constructor ()
      ensures Valid() && !started
    {
      started, store, sweeper := false, map[], Off;
    }

    /** Only the first call counts. */
    method Init(expirationDuration: int)
      requires Valid()
      modifies this
      ensures Valid() && started
      ensures old(started) ==> store == old(store) && sweeper == old(sweeper)
      ensures !old(started) ==>
        && store == map[]
        && (sweeper.Off? <==> expirationDuration <= 0)
        && (sweeper.Every? ==>
              sweeper.seconds * 1_000_000_000 <= expirationDuration < (sweeper.seconds + 1) * 1_000_000_000)
    {
      if !started {
        started, store, sweeper := true, map[], Off;
        if expirationDuration > 0 {
          sweeper := Every(expirationDuration / NANOSECONDS);
        }
      }
    }

    /** A queue within its limit stays within it. */
    method Request(key: string, maxRequestNum: nat, duration: int, now: int) returns (ok: bool)
      requires Valid() && started
      modifies this`store
      ensures Valid()
      ensures ok == Admits(old(store), key, Limit(maxRequestNum, duration), now)
      ensures store == AfterRequest(old(store), key, Limit(maxRequestNum, duration), now)
      ensures maxRequestNum >= 1 && |Log(old(store), key)| <= maxRequestNum ==> |Log(store, key)| <= maxRequestNum
    {
      if key in store {
        var queue := store[key];
        if |queue| < maxRequestNum {
          store := store[key := queue + [now]];
          return true;
        } else if now - queue[0] >= duration {
          queue := queue[1..];
          store := store[key := queue + [now]];
          return true;
        } else {
          return false;
        }
      }
      store := store[key := []];
      store := store[key := store[key] + [now]];
      return true;
    }

    /** One wake-up of the sweeping goroutine. */
    method ClearExpiredItems(now: int)
      requires Valid() && sweeper.Every?
      modifies this`store
      ensures Valid()
      ensures store == AfterSweep(old(store), sweeper, now)
    {
      ghost var before := store;
      var todo := store.Keys;
      while todo != {}
        invariant todo <= before.Keys
        invariant forall k :: k in store <==>
          k in before && (k in todo || !Idle(before[k], sweeper.seconds, now))
        invariant forall k | k in store :: store[k] == before[k]
        decreases |todo|
      {
        var key :| key in todo;
        var queue := store[key];
        var size := |queue|;
        if size == 0 || now - queue[size - 1] > sweeper.seconds {
          store := store - {key};
        }
        todo := todo - {key};
      }
    }
  }

  // ----- Whole runs -----

  /** Time never goes back: every event is at least as late as `t` and as its predecessor. */
  ghost predicate Monotone(events: seq<Event>, t: int) {
    events == [] || (t <= events[0].now && Monotone(events[1..], events[0].now))
  }

  /** The answers of the limiter, one for every event; a sweep answers nothing and counts as `true`. */
  function Answers(store: Store, limits: string -> Limit, sweeper: Sweeper, events: seq<Event>): (r: seq<bool>)
    requires NonEmptyQueues(store)
    ensures |r| == |events|
    decreases |events|
  {
    if events == [] then []
    else match events[0]
      case Request(k, now) =>
        [Admits(store, k, limits(k), now)]
        + Answers(AfterRequest(store, k, limits(k), now), limits, sweeper, events[1..])
      case Sweep(now) =>
        [true] + Answers(AfterSweep(store, sweeper, now), limits, sweeper, events[1..])
  }

  // ----- The naive limiter: the full log of admissions, never forgotten -----

  function CountYoung(log: seq<int>, now: int, duration: int): nat {
    if log == [] then 0
    else CountYoung(log[..|log| - 1], now, duration) + if now - log[|log| - 1] < duration then 1 else 0
  }

  predicate NaiveAdmits(logs: Store, key: string, limit: Limit, now: int) {
    CountYoung(Log(logs, key), now, limit.duration) < limit.max
  }

  function NaiveAfter(logs: Store, limits: string -> Limit, e: Event): Store {
    if e.Request? && NaiveAdmits(logs, e.key, limits(e.key), e.now)
    then logs[e.key := Log(logs, e.key) + [e.now]]
    else logs
  }

  function NaiveAnswers(logs: Store, limits: string -> Limit, events: seq<Event>): (r: seq<bool>)
    ensures |r| == |events|
    decreases |events|
  {
    if events == [] then []
    else
      [events[0].Sweep? || NaiveAdmits(logs, events[0].key, limits(events[0].key), events[0].now)]
      + NaiveAnswers(NaiveAfter(logs, limits, events[0]), limits, events[1..])
  }

  /** The times at which key was admitted, read off the answers. */
  function Admitted(events: seq<Event>, answers: seq<bool>, key: string): seq<int>
    requires |events| == |answers|
  {
    if events == [] then []
    else
      (if events[0].Request? && events[0].key == key && answers[0] then [events[0].now] else [])
      + Admitted(events[1..], answers[1..], key)
  }

  // ----- Facts about logs -----

  ghost predicate Ordered(log: seq<int>) {
    forall i, j | 0 <= i < j < |log| :: log[i] <= log[j]
  }

  ghost predicate Sorted(log: seq<int>, t: int) {
    Ordered(log) && forall i | 0 <= i < |log| :: log[i] <= t
  }

  /** In a sorted log the young entries form a suffix, so counting them finds its start. */
  lemma {:induction false} YoungAreASuffix(log: seq<int>, t: int, now: int, duration: int, m: nat)
    requires Sorted(log, t)
    ensures CountYoung(log, now, duration) >= m <==>
      m == 0 || (m <= |log| && now - log[|log| - m] < duration)
  {
    if log != [] {
      var rest := log[..|log| - 1];
      YoungAreASuffix(rest, t, now, duration, if m == 0 then 0 else m - 1);
      if m == 1 && now - log[|log| - 1] >= duration {
        YoungAreASuffix(rest, t, now, duration, 1);
      }
    }
  }

  // ----- The invariant tying the queue to the log -----

  /** The queue is a suffix of the log no longer than the limit; what was dropped is already old. */
  ghost predicate Tracks(queue: seq<int>, log: seq<int>, limit: Limit, t: int) {
    && |queue| <= limit.max
    && |queue| <= |log|
    && queue == log[|log| - |queue|..]
    && Sorted(log, t)
    && forall i | 0 <= i < |log| - |queue| :: t - log[i] >= limit.duration
  }

  ghost predicate Related(store: Store, logs: Store, limits: string -> Limit, t: int) {
    && NonEmptyQueues(store)
    && forall k :: Tracks(Log(store, k), Log(logs, k), limits(k), t)
  }

  ghost predicate Positive(limits: string -> Limit) {
    forall k :: limits(k).max >= 1
  }

  ghost predicate Covered(limits: string -> Limit, sweeper: Sweeper) {
    forall k :: Fits(limits(k), sweeper)
  }

  /** The window is over before a sweep may forget the key, or nothing is ever swept. */
  predicate Fits(limit: Limit, sweeper: Sweeper) {
    sweeper.Every? ==> limit.duration <= sweeper.seconds + 1
  }

  lemma TracksLater(queue: seq<int>, log: seq<int>, limit: Limit, t: int, now: int)
    requires Tracks(queue, log, limit, t) && t <= now
    ensures Tracks(queue, log, limit, now)
  {
  }

  lemma TracksAgrees(queue: seq<int>, log: seq<int>, limit: Limit, t: int, now: int)
    requires Tracks(queue, log, limit, t) && t <= now && limit.max >= 1
    ensures CountYoung(log, now, limit.duration) < limit.max <==> QueueAdmits(queue, limit, now)
  {
    YoungAreASuffix(log, t, now, limit.duration, limit.max);
    if limit.max <= |log| && |queue| < limit.max {
      assert t - log[|log| - limit.max] >= limit.duration;
    }
  }

  lemma TracksAdmit(queue: seq<int>, log: seq<int>, limit: Limit, t: int, now: int)
    requires Tracks(queue, log, limit, t) && t <= now && limit.max >= 1 && QueueAdmits(queue, limit, now)
    ensures Tracks(Enqueue(queue, limit, now), log + [now], limit, now)
  {
    var log', queue' := log + [now], Enqueue(queue, limit, now);
    if queue == [] || |queue| < limit.max {
      assert queue' == log'[|log'| - |queue'|..];
    } else {
      assert queue' == log'[|log'| - |queue'|..];
      assert log[|log| - |queue|] == queue[0];
    }
  }

  /** A request touches the queue and the log of its own key only. */
  lemma RequestLogs(store: Store, logs: Store, limits: string -> Limit, key: string, now: int, k: string)
    ensures Log(AfterRequest(store, key, limits(key), now), k) ==
      if k == key && Admits(store, k, limits(k), now) then Enqueue(Log(store, k), limits(k), now) else Log(store, k)
    ensures Log(NaiveAfter(logs, limits, Request(key, now)), k) ==
      if k == key && NaiveAdmits(logs, k, limits(k), now) then Log(logs, k) + [now] else Log(logs, k)
  {
  }

  /** What one request for key does to the queue and the log of k. */
  lemma RequestTracks(store: Store, logs: Store, limits: string -> Limit, t: int, key: string, now: int, k: string)
    requires t <= now && limits(key).max >= 1
    requires Tracks(Log(store, k), Log(logs, k), limits(k), t)
    ensures Tracks(Log(AfterRequest(store, key, limits(key), now), k),
                   Log(NaiveAfter(logs, limits, Request(key, now)), k), limits(k), now)
  {
    RequestLogs(store, logs, limits, key, now, k);
    QueueTracks(Log(store, k), Log(logs, k), limits(k), t, now);
  }

  lemma QueueTracks(queue: seq<int>, log: seq<int>, limit: Limit, t: int, now: int)
    requires Tracks(queue, log, limit, t) && t <= now
    ensures Tracks(queue, log, limit, now)
    ensures limit.max >= 1 ==>
      && (CountYoung(log, now, limit.duration) < limit.max <==> QueueAdmits(queue, limit, now))
      && (QueueAdmits(queue, limit, now) ==> Tracks(Enqueue(queue, limit, now), log + [now], limit, now))
  {
    TracksLater(queue, log, limit, t, now);
    if limit.max >= 1 {
      TracksAgrees(queue, log, limit, t, now);
      if QueueAdmits(queue, limit, now) {
        TracksAdmit(queue, log, limit, t, now);
      }
    }
  }

  lemma RequestKeepsRelated(store: Store, logs: Store, limits: string -> Limit, t: int, key: string, now: int)
    requires Related(store, logs, limits, t) && t <= now && limits(key).max >= 1
    ensures Admits(store, key, limits(key), now) == NaiveAdmits(logs, key, limits(key), now)
    ensures
      Related(AfterRequest(store, key, limits(key), now), NaiveAfter(logs, limits, Request(key, now)), limits, now)
  {
    var store' := AfterRequest(store, key, limits(key), now);
    var logs' := NaiveAfter(logs, limits, Request(key, now));
    TracksAgrees(Log(store, key), Log(logs, key), limits(key), t, now);
    forall k ensures Tracks(Log(store', k), Log(logs', k), limits(k), now) {
      RequestTracks(store, logs, limits, t, key, now, k);
    }
  }

  lemma SweepTracks(store: Store, log: seq<int>, limit: Limit, t: int, sweeper: Sweeper, now: int, k: string)
    requires t <= now && Fits(limit, sweeper)
    requires Tracks(Log(store, k), log, limit, t)
    ensures Tracks(Log(AfterSweep(store, sweeper, now), k), log, limit, now)
  {
    var queue := Log(store, k);
    if k in store && k !in AfterSweep(store, sweeper, now) && queue != [] {
      assert log[|log| - 1] == queue[|queue| - 1];
    }
  }

  lemma SweepKeepsRelated(store: Store, logs: Store, limits: string -> Limit, t: int, sweeper: Sweeper, now: int)
    requires Related(store, logs, limits, t) && t <= now && Covered(limits, sweeper)
    ensures Related(AfterSweep(store, sweeper, now), logs, limits, now)
  {
    forall k ensures Tracks(Log(AfterSweep(store, sweeper, now), k), Log(logs, k), limits(k), now) {
      assert Fits(limits(k), sweeper);
      SweepTracks(store, Log(logs, k), limits(k), t, sweeper, now, k);
    }
  }

  lemma {:induction false} RefinesFrom(store: Store, logs: Store, limits: string -> Limit, sweeper: Sweeper,
                                       events: seq<Event>, t: int)
    requires Related(store, logs, limits, t) && Positive(limits) && Covered(limits, sweeper)
    requires Monotone(events, t)
    ensures Answers(store, limits, sweeper, events) == NaiveAnswers(logs, limits, events)
    decreases |events|
  {
    if events != [] {
      match events[0]
      case Request(k, now) =>
        RequestKeepsRelated(store, logs, limits, t, k, now);
        RefinesFrom(AfterRequest(store, k, limits(k), now), NaiveAfter(logs, limits, events[0]),
                    limits, sweeper, events[1..], now);
      case Sweep(now) =>
        SweepKeepsRelated(store, logs, limits, t, sweeper, now);
        RefinesFrom(AfterSweep(store, sweeper, now), logs, limits, sweeper, events[1..], now);
    }
  }

  // ----- Admissions keep their distance -----

  ghost predicate Spaced(log: seq<int>, limit: Limit) {
    forall i, j | 0 <= i < j < |log| && j - i >= limit.max :: log[j] - log[i] >= limit.duration
  }

  lemma AppendSpaced(log: seq<int>, limit: Limit, now: int)
    requires limit.max >= 1 && Ordered(log) && Spaced(log, limit)
    requires |log| >= limit.max ==> now - log[|log| - limit.max] >= limit.duration
    ensures Spaced(log + [now], limit)
  {
    var log', n := log + [now], |log|;
    forall i, j | 0 <= i < j < |log'| && j - i >= limit.max ensures log'[j] - log'[i] >= limit.duration {
      if j == n {
        assert log[i] <= log[n - limit.max];
      }
    }
  }

  lemma AppendSorted(log: seq<int>, t: int, now: int)
    requires Sorted(log, t) && t <= now
    ensures Sorted(log + [now], now)
  {
  }

  lemma AdmitKeepsSpaced(log: seq<int>, limit: Limit, t: int, now: int)
    requires limit.max >= 1 && t <= now
    requires Sorted(log, t) && Spaced(log, limit) && CountYoung(log, now, limit.duration) < limit.max
    ensures Sorted(log + [now], now) && Spaced(log + [now], limit)
  {
    YoungAreASuffix(log, t, now, limit.duration, limit.max);
    AppendSpaced(log, limit, now);
    AppendSorted(log, t, now);
  }

  function AfterEvent(store: Store, limits: string -> Limit, sweeper: Sweeper, e: Event): Store {
    if e.Request? then AfterRequest(store, e.key, limits(e.key), e.now) else AfterSweep(store, sweeper, e.now)
  }

  predicate AdmitsKey(store: Store, limits: string -> Limit, e: Event, key: string) {
    e.Request? && e.key == key && Admits(store, key, limits(key), e.now)
  }

  /** The times at which the limiter admits key. */
  function Admissions(store: Store, limits: string -> Limit, sweeper: Sweeper, events: seq<Event>, key: string)
    : seq<int>
    decreases |events|
  {
    if events == [] then []
    else
      (if AdmitsKey(store, limits, events[0], key) then [events[0].now] else [])
      + Admissions(AfterEvent(store, limits, sweeper, events[0]), limits, sweeper, events[1..], key)
  }

  /** They are the ones its answers show. */
  lemma {:induction false} AdmissionsShown(store: Store, limits: string -> Limit, sweeper: Sweeper, events: seq<Event>,
                                           key: string)
    requires NonEmptyQueues(store)
    ensures Admitted(events, Answers(store, limits, sweeper, events), key)
         == Admissions(store, limits, sweeper, events, key)
    decreases |events|
  {
    if events != [] {
      var store' := AfterEvent(store, limits, sweeper, events[0]);
      assert NonEmptyQueues(store');
      AdmissionsShown(store', limits, sweeper, events[1..], key);
      assert Answers(store, limits, sweeper, events)[1..] == Answers(store', limits, sweeper, events[1..]);
    }
  }

  /** The admissions of a key stay spaced whatever the limits of the other keys are. */
  lemma {:induction false} KeySpaced(store: Store, limits: string -> Limit, sweeper: Sweeper, events: seq<Event>,
                                     t: int, key: string, log: seq<int>)
    requires Monotone(events, t) && limits(key).max >= 1 && Fits(limits(key), sweeper)
    requires Tracks(Log(store, key), log, limits(key), t) && Spaced(log, limits(key))
    ensures
      var all := log + Admissions(store, limits, sweeper, events, key);
      Spaced(all, limits(key)) && Ordered(all)
    decreases |events|
  {
    if events == [] {
      assert log + [] == log;
    } else {
      var e, rest := events[0], events[1..];
      var store', log' := AfterEvent(store, limits, sweeper, e), LogAfter(store, limits, e, key, log);
      EventTracks(store, limits, sweeper, e, t, key, log);
      KeySpaced(store', limits, sweeper, rest, e.now, key, log');
      AdmissionsNext(store, limits, sweeper, events, key, log);
    }
  }

  lemma AdmissionsNext(store: Store, limits: string -> Limit, sweeper: Sweeper, events: seq<Event>, key: string,
                       log: seq<int>)
    requires events != []
    ensures
      var store', log' := AfterEvent(store, limits, sweeper, events[0]), LogAfter(store, limits, events[0], key, log);
      log + Admissions(store, limits, sweeper, events, key)
      == log' + Admissions(store', limits, sweeper, events[1..], key)
  {
    var store' := AfterEvent(store, limits, sweeper, events[0]);
    Regroup(log, events[0].now, Admissions(store', limits, sweeper, events[1..], key));
  }

  function LogAfter(store: Store, limits: string -> Limit, e: Event, key: string, log: seq<int>): seq<int> {
    if AdmitsKey(store, limits, e, key) then log + [e.now] else log
  }

  lemma EventTracks(store: Store, limits: string -> Limit, sweeper: Sweeper, e: Event, t: int, key: string,
                    log: seq<int>)
    requires t <= e.now && limits(key).max >= 1 && Fits(limits(key), sweeper)
    requires Tracks(Log(store, key), log, limits(key), t) && Spaced(log, limits(key))
    ensures
      var log' := LogAfter(store, limits, e, key, log);
      Tracks(Log(AfterEvent(store, limits, sweeper, e), key), log', limits(key), e.now) && Spaced(log', limits(key))
  {
    var queue, limit := Log(store, key), limits(key);
    TracksLater(queue, log, limit, t, e.now);
    if e.Sweep? {
      SweepTracks(store, log, limit, t, sweeper, e.now, key);
    } else if e.key == key && QueueAdmits(queue, limit, e.now) {
      TracksAgrees(queue, log, limit, t, e.now);
      TracksAdmit(queue, log, limit, t, e.now);
      AdmitKeepsSpaced(log, limit, t, e.now);
    }
  }

  // ----- A run that overruns the limit -----

  /** n requests for one key at time 0, then a sweep just past the expiration and one more request. */
  function Overrun(key: string, n: nat, expiration: nat): seq<Event> {
    if n == 0 then [Sweep(expiration + 1), Request(key, expiration + 1)]
    else [Request(key, 0)] + Overrun(key, n - 1, expiration)
  }

  ghost predicate Zeros(log: seq<int>, n: nat) {
    |log| == n && forall i | 0 <= i < n :: log[i] == 0
  }

  /** n times zero and then one late entry. */
  ghost predicate BurstThenLate(log: seq<int>, n: nat, late: int) {
    |log| == n + 1 && log[n] == late && forall i | 0 <= i < n :: log[i] == 0
  }

  lemma {:induction false} OverrunMonotone(key: string, n: nat, expiration: nat)
    ensures Monotone(Overrun(key, n, expiration), 0)
  {
    if n == 0 {
      assert Overrun(key, 0, expiration)[1..] == [Request(key, expiration + 1)];
      assert Monotone([Request(key, expiration + 1)], expiration + 1);
    } else {
      OverrunMonotone(key, n - 1, expiration);
      assert Overrun(key, n, expiration)[1..] == Overrun(key, n - 1, expiration);
    }
  }

  /** A request at time 0 while fewer than the limit came in at time 0 is admitted. */
  lemma BurstStep(store: Store, limits: string -> Limit, key: string, m: nat)
    requires m < limits(key).max && Zeros(Log(store, key), m)
    ensures AdmitsKey(store, limits, Request(key, 0), key)
    ensures Zeros(Log(AfterRequest(store, key, limits(key), 0), key), m + 1)
  {
  }

  /** After a sweep just past the expiration the next request is admitted, however many came in at time 0. */
  lemma SweptStep(store: Store, limits: string -> Limit, expiration: nat, key: string, m: nat)
    requires Zeros(Log(store, key), m)
    ensures Admissions(store, limits, Every(expiration), Overrun(key, 0, expiration), key) == [expiration + 1]
  {
    var events, store' := Overrun(key, 0, expiration), AfterSweep(store, Every(expiration), expiration + 1);
    var last := [Request(key, expiration + 1)];
    assert events[1..] == last && last[1..] == [] && key !in store';
    assert Admissions(store', limits, Every(expiration), last, key) == [expiration + 1];
  }

  /** All requests of an overrun are admitted, also the one after the sweep. */
  lemma {:induction false} OverrunAdmitted(store: Store, limits: string -> Limit, expiration: nat, key: string, n: nat)
    requires n <= limits(key).max && Zeros(Log(store, key), limits(key).max - n)
    ensures BurstThenLate(Admissions(store, limits, Every(expiration), Overrun(key, n, expiration), key),
                          n, expiration + 1)
    decreases n
  {
    if n == 0 {
      SweptStep(store, limits, expiration, key, limits(key).max);
    } else {
      var store', rest := AfterRequest(store, key, limits(key), 0), Overrun(key, n - 1, expiration);
      BurstStep(store, limits, key, limits(key).max - n);
      OverrunAdmitted(store', limits, expiration, key, n - 1);
      AdmittedFirst(store, limits, Every(expiration), Request(key, 0), rest, key);
      LateNext(Admissions(store', limits, Every(expiration), rest, key), n - 1, expiration + 1);
    }
  }

  lemma LateNext(log: seq<int>, n: nat, late: int)
    requires BurstThenLate(log, n, late)
    ensures BurstThenLate([0] + log, n + 1, late)
  {
  }

  lemma AdmittedFirst(store: Store, limits: string -> Limit, sweeper: Sweeper, e: Event, rest: seq<Event>, key: string)
    requires AdmitsKey(store, limits, e, key)
    ensures Admissions(store, limits, sweeper, [e] + rest, key)
         == [e.now] + Admissions(AfterEvent(store, limits, sweeper, e), limits, sweeper, rest, key)
  {
    assert ([e] + rest)[1..] == rest;
  }

  // ----- The naive limiter spaces its admissions -----

  predicate NaiveAdmitsKey(logs: Store, limits: string -> Limit, e: Event, key: string) {
    e.Request? && e.key == key && NaiveAdmits(logs, key, limits(key), e.now)
  }

  /** The times at which the naive limiter admits key. */
  function NaiveAdmissions(logs: Store, limits: string -> Limit, events: seq<Event>, key: string): seq<int>
    decreases |events|
  {
    if events == [] then []
    else
      (if NaiveAdmitsKey(logs, limits, events[0], key) then [events[0].now] else [])
      + NaiveAdmissions(NaiveAfter(logs, limits, events[0]), limits, events[1..], key)
  }

  lemma {:induction false} NaiveShown(logs: Store, limits: string -> Limit, events: seq<Event>, key: string)
    ensures Admitted(events, NaiveAnswers(logs, limits, events), key) == NaiveAdmissions(logs, limits, events, key)
    decreases |events|
  {
    if events != [] {
      var logs' := NaiveAfter(logs, limits, events[0]);
      NaiveShown(logs', limits, events[1..], key);
      assert NaiveAnswers(logs, limits, events)[1..] == NaiveAnswers(logs', limits, events[1..]);
    }
  }

  lemma NaiveNext(logs: Store, limits: string -> Limit, events: seq<Event>, key: string)
    requires events != []
    ensures
      var logs' := NaiveAfter(logs, limits, events[0]);
      Log(logs, key) + NaiveAdmissions(logs, limits, events, key)
      == Log(logs', key) + NaiveAdmissions(logs', limits, events[1..], key)
  {
    var logs' := NaiveAfter(logs, limits, events[0]);
    Regroup(Log(logs, key), events[0].now, NaiveAdmissions(logs', limits, events[1..], key));
  }

  lemma Regroup(log: seq<int>, now: int, later: seq<int>)
    ensures log + ([now] + later) == (log + [now]) + later && [] + later == later
  {
  }

  lemma NaiveStep(logs: Store, limits: string -> Limit, e: Event, t: int, key: string)
    requires limits(key).max >= 1 && t <= e.now
    requires Sorted(Log(logs, key), t) && Spaced(Log(logs, key), limits(key))
    ensures
      var log' := Log(NaiveAfter(logs, limits, e), key);
      Sorted(log', e.now) && Spaced(log', limits(key))
  {
    if NaiveAdmitsKey(logs, limits, e, key) {
      AdmitKeepsSpaced(Log(logs, key), limits(key), t, e.now);
    }
  }

  lemma {:induction false} NaiveSpaced(logs: Store, limits: string -> Limit, events: seq<Event>, t: int, key: string)
    requires limits(key).max >= 1 && Monotone(events, t)
    requires Sorted(Log(logs, key), t) && Spaced(Log(logs, key), limits(key))
    ensures Spaced(Log(logs, key) + NaiveAdmissions(logs, limits, events, key), limits(key))
    decreases |events|
  {
    if events == [] {
      assert Log(logs, key) + [] == Log(logs, key);
    } else {
      NaiveStep(logs, limits, events[0], t, key);
      NaiveSpaced(NaiveAfter(logs, limits, events[0]), limits, events[1..], events[0].now, key);
      NaiveNext(logs, limits, events, key);
    }
  }

  // ----- Exactly when the queue refines the naive limiter -----

  ghost predicate AlwaysRefines(limits: string -> Limit, sweeper: Sweeper) {
    forall events, t | Monotone(events, t) ::
      Answers(map[], limits, sweeper, events) == NaiveAnswers(map[], limits, events)
  }

  /** Two limiters that admit a key at different times give different answers. */
  lemma AdmissionsDiffer(limits: string -> Limit, sweeper: Sweeper, events: seq<Event>, key: string)
    requires Admissions(map[], limits, sweeper, events, key) != NaiveAdmissions(map[], limits, events, key)
    ensures Answers(map[], limits, sweeper, events) != NaiveAnswers(map[], limits, events)
  {
    AdmissionsShown(map[], limits, sweeper, events, key);
    NaiveShown(map[], limits, events, key);
  }

  lemma LateNotSpaced(log: seq<int>, limit: Limit, late: int)
    requires limit.max >= 1 && BurstThenLate(log, limit.max, late) && late < limit.duration
    ensures !Spaced(log, limit)
  {
    assert log[limit.max] - log[0] < limit.duration;
  }

  /** An overrun is answered differently, since its admissions are not spaced. */
  lemma OverrunDisagrees(limits: string -> Limit, expiration: nat, key: string)
    requires limits(key).max >= 1 && limits(key).duration > expiration + 1
    ensures
      var events := Overrun(key, limits(key).max, expiration);
      Monotone(events, 0) && Answers(map[], limits, Every(expiration), events) != NaiveAnswers(map[], limits, events)
  {
    var n := limits(key).max;
    var events := Overrun(key, n, expiration);
    OverrunMonotone(key, n, expiration);
    OverrunAdmitted(map[], limits, expiration, key, n);
    NaiveSpaced(map[], limits, events, 0, key);
    Regroup([], 0, NaiveAdmissions(map[], limits, events, key));
    LateNotSpaced(Admissions(map[], limits, Every(expiration), events, key), limits(key), expiration + 1);
    AdmissionsDiffer(limits, Every(expiration), events, key);
  }

  lemma NeverAdmits(limits: string -> Limit, sweeper: Sweeper, key: string)
    requires limits(key).max < 1
    ensures
      var events := [Request(key, 0)];
      Monotone(events, 0) && Answers(map[], limits, sweeper, events)[0] != NaiveAnswers(map[], limits, events)[0]
  {
    assert Monotone([Request(key, 0)][1..], 0);
  }

  /** The queue answers like the naive limiter in every run if and only if every key allows at least one request
      and, where a sweeper runs, no window is more than a second longer than its expiration. */
  lemma RefinesExactly(limits: string -> Limit, sweeper: Sweeper)
    ensures AlwaysRefines(limits, sweeper) <==> Positive(limits) && Covered(limits, sweeper)
  {
    if Positive(limits) && Covered(limits, sweeper) {
      forall events, t | Monotone(events, t)
        ensures Answers(map[], limits, sweeper, events) == NaiveAnswers(map[], limits, events)
      {
        RefinesFrom(map[], map[], limits, sweeper, events, t);
      }
    } else if !Positive(limits) {
      var k :| limits(k).max < 1;
      NeverAdmits(limits, sweeper, k);
    } else {
      var k :| !Fits(limits(k), sweeper);
      OverrunDisagrees(limits, sweeper.seconds, k);
    }
  }

  // ----- Exactly when every window is bounded -----

  function CountWithin(log: seq<int>, from: int, to: int): nat {
    if log == [] then 0
    else CountWithin(log[..|log| - 1], from, to) + if from <= log[|log| - 1] < to then 1 else 0
  }

  /** Entries before the window do not count, so at most those after them do. */
  lemma {:induction false} CountAfter(log: seq<int>, from: int, to: int, m: nat)
    requires Ordered(log) && m <= |log| && (m > 0 ==> log[m - 1] < from)
    ensures CountWithin(log, from, to) <= |log| - m
  {
    if log != [] {
      CountAfter(log[..|log| - 1], from, to, if m == |log| then m - 1 else m);
    }
  }

  lemma {:induction false} SpacedWindow(log: seq<int>, limit: Limit, from: int)
    requires limit.max >= 1 && Spaced(log, limit) && Ordered(log)
    ensures CountWithin(log, from, from + limit.duration) <= limit.max
  {
    if log != [] {
      var n := |log|;
      SpacedWindow(log[..n - 1], limit, from);
      if from <= log[n - 1] < from + limit.duration {
        CountAfter(log, from, from + limit.duration, if n > limit.max then n - limit.max else 0);
      }
    }
  }

  /** No window of the limit's length that starts at `from` holds more than its number of entries. */
  ghost predicate Bounded(log: seq<int>, limit: Limit, from: int) {
    CountWithin(log, from, from + limit.duration) <= limit.max
  }

  /** Over every run, sweeps included, admissions of one key that are `max` apart are at least `duration` apart. */
  lemma AdmissionsSpaced(limits: string -> Limit, sweeper: Sweeper, events: seq<Event>, t: int, key: string)
    requires limits(key).max >= 1 && Fits(limits(key), sweeper) && Monotone(events, t)
    ensures
      var log := Admissions(map[], limits, sweeper, events, key);
      Spaced(log, limits(key)) && Ordered(log)
  {
    KeySpaced(map[], limits, sweeper, events, t, key, []);
    var log := Admissions(map[], limits, sweeper, events, key);
    assert [] + log == log;
  }

  lemma {:induction false} EmptyWindow(log: seq<int>, from: int, to: int)
    requires to <= from
    ensures CountWithin(log, from, to) == 0
  {
    if log != [] {
      EmptyWindow(log[..|log| - 1], from, to);
    }
  }

  lemma {:induction false} AllWithin(log: seq<int>, from: int, to: int)
    requires forall i | 0 <= i < |log| :: from <= log[i] < to
    ensures CountWithin(log, from, to) == |log|
  {
    if log != [] {
      AllWithin(log[..|log| - 1], from, to);
    }
  }

  ghost predicate AlwaysBounded(limits: string -> Limit, sweeper: Sweeper, key: string) {
    forall events, t, from | Monotone(events, t) ::
      Bounded(Admissions(map[], limits, sweeper, events, key), limits(key), from)
  }

  /** Either at least one request per window that no sweep cuts short, or none per empty window. */
  predicate Enforceable(limit: Limit, sweeper: Sweeper) {
    if limit.max >= 1 then Fits(limit, sweeper) else limit.duration <= 0
  }

  /** In every run no window of a key holds more than `max` admissions, if and only if its limit is enforceable. */
  lemma BoundedExactly(limits: string -> Limit, sweeper: Sweeper, key: string)
    ensures AlwaysBounded(limits, sweeper, key) <==> Enforceable(limits(key), sweeper)
  {
    if Enforceable(limits(key), sweeper) {
      forall events, t, from | Monotone(events, t)
        ensures Bounded(Admissions(map[], limits, sweeper, events, key), limits(key), from)
      {
        EnforceableBounded(limits, sweeper, events, t, key, from);
      }
    } else {
      Exceeds(limits, sweeper, key);
    }
  }

  lemma EnforceableBounded(limits: string -> Limit, sweeper: Sweeper, events: seq<Event>, t: int, key: string,
                           from: int)
    requires Enforceable(limits(key), sweeper) && Monotone(events, t)
    ensures Bounded(Admissions(map[], limits, sweeper, events, key), limits(key), from)
  {
    var log, limit := Admissions(map[], limits, sweeper, events, key), limits(key);
    if limit.max >= 1 {
      AdmissionsSpaced(limits, sweeper, events, t, key);
      SpacedWindow(log, limit, from);
    } else {
      EmptyWindow(log, from, from + limit.duration);
    }
  }

  lemma LateNotBounded(log: seq<int>, limit: Limit, late: nat)
    requires BurstThenLate(log, limit.max, late) && late < limit.duration
    ensures !Bounded(log, limit, 0)
  {
    AllWithin(log, 0, limit.duration);
  }

  lemma Exceeds(limits: string -> Limit, sweeper: Sweeper, key: string)
    requires !Enforceable(limits(key), sweeper)
    ensures !AlwaysBounded(limits, sweeper, key)
  {
    var limit := limits(key);
    var events := if limit.max >= 1 then Overrun(key, limit.max, sweeper.seconds) else [Request(key, 0)];
    var log := Admissions(map[], limits, sweeper, events, key);
    if limit.max >= 1 {
      OverrunMonotone(key, limit.max, sweeper.seconds);
      OverrunAdmitted(map[], limits, sweeper.seconds, key, limit.max);
      LateNotBounded(log, limit, sweeper.seconds + 1);
    } else {
      assert events[1..] == [] && Monotone(events[1..], 0);
      assert Admissions(AfterRequest(map[], key, limit, 0), limits, sweeper, events[1..], key) == [];
      assert log == [0];
      AllWithin(log, 0, limit.duration);
    }
    assert Monotone(events, 0) && !Bounded(log, limit, 0);
  }

  // ----- Exactly when a request is refused -----

  function StoreAfter(store: Store, limits: string -> Limit, sweeper: Sweeper, events: seq<Event>): Store
    decreases |events|
  {
    if events == [] then store
    else StoreAfter(AfterEvent(store, limits, sweeper, events[0]), limits, sweeper, events[1..])
  }

  function EndTime(events: seq<Event>, t: int): int
    decreases |events|
  {
    if events == [] then t else EndTime(events[1..], events[0].now)
  }

  lemma {:induction false} KeyTracks(store: Store, limits: string -> Limit, sweeper: Sweeper, events: seq<Event>,
                                     t: int, key: string, log: seq<int>)
    requires Monotone(events, t) && limits(key).max >= 1 && Fits(limits(key), sweeper)
    requires Tracks(Log(store, key), log, limits(key), t) && Spaced(log, limits(key))
    ensures Tracks(Log(StoreAfter(store, limits, sweeper, events), key),
                   log + Admissions(store, limits, sweeper, events, key), limits(key), EndTime(events, t))
    decreases |events|
  {
    if events == [] {
      assert log + [] == log;
    } else {
      var e, rest := events[0], events[1..];
      var store', log' := AfterEvent(store, limits, sweeper, e), LogAfter(store, limits, e, key, log);
      EventTracks(store, limits, sweeper, e, t, key, log);
      KeyTracks(store', limits, sweeper, rest, e.now, key, log');
      AdmissionsNext(store, limits, sweeper, events, key, log);
    }
  }

  lemma {:induction false} YoungWithin(log: seq<int>, now: int, duration: int)
    requires forall i | 0 <= i < |log| :: log[i] <= now
    ensures CountYoung(log, now, duration) == CountWithin(log, now - duration + 1, now + 1)
  {
    if log != [] {
      YoungWithin(log[..|log| - 1], now, duration);
    }
  }

  /** After every run, a request is refused exactly when `max` of the key's admissions lie in the last `duration`
      seconds, given a positive limit that no sweep cuts short. */
  lemma RefusedExactly(limits: string -> Limit, sweeper: Sweeper, events: seq<Event>, t: int, key: string, now: int)
    requires limits(key).max >= 1 && Fits(limits(key), sweeper)
    requires Monotone(events, t) && EndTime(events, t) <= now
    ensures
      var log, limit := Admissions(map[], limits, sweeper, events, key), limits(key);
      !Admits(StoreAfter(map[], limits, sweeper, events), key, limit, now) <==>
      CountWithin(log, now - limit.duration + 1, now + 1) >= limit.max
  {
    var log, limit := Admissions(map[], limits, sweeper, events, key), limits(key);
    var queue := Log(StoreAfter(map[], limits, sweeper, events), key);
    assert Tracks(queue, log, limit, EndTime(events, t)) by {
      KeyTracks(map[], limits, sweeper, events, t, key, []);
      Regroup([], 0, log);
    }
    QueueRefuses(queue, log, limit, EndTime(events, t), now);
  }

  lemma QueueRefuses(queue: seq<int>, log: seq<int>, limit: Limit, t: int, now: int)
    requires Tracks(queue, log, limit, t) && t <= now && limit.max >= 1
    ensures !QueueAdmits(queue, limit, now) <==> CountWithin(log, now - limit.duration + 1, now + 1) >= limit.max
  {
    TracksAgrees(queue, log, limit, t, now);
    YoungWithin(log, now, limit.duration);
  }
}
