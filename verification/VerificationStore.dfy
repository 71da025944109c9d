/** Single-use, expiring verification codes: the process-local map, the shared Redis store, and a
    reference store that simply remembers every registration until it is consumed. */
module VerificationStore {

  /** `sweepAt` is the second clock reading of a registration, taken by the sweep it may trigger.
      `Expire` is Redis dropping some keys whose time is up, at a moment of its own choosing. */
  datatype Event =
    | Register(key: string, code: string, now: int, sweepAt: int)
    | Consume(key: string, code: string, now: int)
    | Expire(victims: set<string>, now: int)
  {
    function End(): int {
      if Register? then sweepAt else now
    }
  }

  datatype Entry = Entry(code: string, time: int)
  type Entries = map<string, Entry>

  datatype Deadline = Never | At(time: int)
  datatype RedisValue = RedisValue(code: string, deadline: Deadline)
  type RedisStore = map<string, RedisValue>

  const VERIFICATION_MAP_MAX_SIZE := 10

  // ----- The map back end -----

  predicate Fresh(entry: Entry, ttl: int, now: int) {
    now - entry.time < ttl
  }

  function WithoutExpired(entries: Entries, ttl: int, now: int): Entries {
    map k | k in entries && Fresh(entries[k], ttl, now) :: entries[k]
  }

  predicate MapAccepts(entries: Entries, key: string, code: string, ttl: int, now: int) {
    key in entries && Fresh(entries[key], ttl, now) && entries[key].code == code
  }

  function MapStep(entries: Entries, e: Event, ttl: int): Entries {
    match e
    case Register(k, code, now, sweepAt) =>
      var added := entries[k := Entry(code, now)];
      if |added| > VERIFICATION_MAP_MAX_SIZE then WithoutExpired(added, ttl, sweepAt) else added
    case Consume(k, code, now) =>
      if k in entries && (!Fresh(entries[k], ttl, now) || entries[k].code == code) then entries - {k} else entries
    case Expire(_, _) => entries
  }

  // ----- The Redis back end: SET with a time to live, and the consume script -----

  predicate Readable(value: RedisValue, now: int) {
    value.deadline.Never? || now < value.deadline.time
  }

  /** A time to live that is not positive sets the key without one. */
  function RedisSet(store: RedisStore, key: string, code: string, ttl: int, now: int): RedisStore {
    store[key := RedisValue(code, if ttl > 0 then At(now + ttl) else Never)]
  }

  predicate RedisAccepts(store: RedisStore, key: string, code: string, now: int) {
    key in store && Readable(store[key], now) && store[key].code == code
  }

  function RedisStep(store: RedisStore, e: Event, ttl: int): RedisStore {
    match e
    case Register(k, code, now, _) => RedisSet(store, k, code, ttl, now)
    case Consume(k, code, now) => if RedisAccepts(store, k, code, now) then store - {k} else store
    case Expire(victims, now) => map k | k in store && (k !in victims || Readable(store[k], now)) :: store[k]
  }

  datatype Outcome = Unavailable | Done | Checked(matched: bool)

  class VerificationCodes {
    var entries: Entries
    var redis: RedisStore
    const redisEnabled: bool
    const ttl: int

    constructor (redisEnabled: bool, ttl: int)
      ensures entries == map[] && redis == map[] && this.redisEnabled == redisEnabled && this.ttl == ttl
    {
      entries, redis := map[], map[];
      this.redisEnabled, this.ttl := redisEnabled, ttl;
    }

    /** `up` says whether the Redis client answers; when it does not, nothing is stored anywhere. */
    method Register(storageKey: string, code: string, now: int, sweepAt: int, up: bool) returns (r: Outcome)
      modifies this
      ensures r == if redisEnabled && !up then Unavailable else Done
      ensures entries == if redisEnabled then old(entries)
                         else MapStep(old(entries), Event.Register(storageKey, code, now, sweepAt), ttl)
      ensures redis == if redisEnabled && up
                       then RedisStep(old(redis), Event.Register(storageKey, code, now, sweepAt), ttl)
                       else old(redis)
    {
      if redisEnabled {
        if !up {
          return Unavailable;
        }
        redis := RedisSet(redis, storageKey, code, ttl, now);
        return Done;
      }
      entries := entries[storageKey := Entry(code, now)];
      if |entries| > VERIFICATION_MAP_MAX_SIZE {
        RemoveExpiredPairs(sweepAt);
      }
      return Done;
    }

    method Consume(storageKey: string, code: string, now: int, up: bool) returns (r: Outcome)
      modifies this
      ensures r == if !redisEnabled then Checked(MapAccepts(old(entries), storageKey, code, ttl, now))
                   else if up then Checked(RedisAccepts(old(redis), storageKey, code, now))
                   else Unavailable
      ensures entries == if redisEnabled then old(entries)
                         else MapStep(old(entries), Event.Consume(storageKey, code, now), ttl)
      ensures redis == if redisEnabled && up then RedisStep(old(redis), Event.Consume(storageKey, code, now), ttl)
                       else old(redis)
    {
      if redisEnabled {
        if !up {
          return Unavailable;
        }
        var matched := RedisAccepts(redis, storageKey, code, now);
        if matched {
          redis := redis - {storageKey};
        }
        return Checked(matched);
      }
      if storageKey !in entries {
        return Checked(false);
      }
      var value := entries[storageKey];
      if now - value.time >= ttl {
        entries := entries - {storageKey};
        return Checked(false);
      }
      if code != value.code {
        return Checked(false);
      }
      entries := entries - {storageKey};
      return Checked(true);
    }

    method RemoveExpiredPairs(now: int)
      modifies this`entries
      ensures entries == WithoutExpired(old(entries), ttl, now)
    {
      ghost var before := entries;
      var todo := entries.Keys;
      while todo != {}
        invariant todo <= before.Keys
        invariant forall k :: k in entries <==> k in before && (k in todo || Fresh(before[k], ttl, now))
        invariant forall k | k in entries :: entries[k] == before[k]
        decreases |todo|
      {
        var key :| key in todo;
        if now - entries[key].time >= ttl {
          entries := entries - {key};
        }
        todo := todo - {key};
      }
    }
  }

  // ----- The reference: only a registration or a successful consume changes it -----

  predicate Accepts(latest: Entries, e: Event, ttl: int) {
    e.Consume? && MapAccepts(latest, e.key, e.code, ttl, e.now)
  }

  function Step(latest: Entries, e: Event, ttl: int): Entries {
    if e.Register? then latest[e.key := Entry(e.code, e.now)]
    else if Accepts(latest, e, ttl) then latest - {e.key}
    else latest
  }

  // ----- Whole runs, by their last event -----

  ghost predicate WellTimed(events: seq<Event>) {
    events == [] ||
    var n := |events| - 1;
    && WellTimed(events[..n])
    && events[n].now <= events[n].End()
    && (n > 0 ==> events[n - 1].End() <= events[n].now)
  }

  function After(events: seq<Event>, ttl: int): Entries {
    if events == [] then map[] else Step(After(events[..|events| - 1], ttl), events[|events| - 1], ttl)
  }

  function MapAfter(events: seq<Event>, ttl: int): Entries {
    if events == [] then map[] else MapStep(MapAfter(events[..|events| - 1], ttl), events[|events| - 1], ttl)
  }

  function RedisAfter(events: seq<Event>, ttl: int): RedisStore {
    if events == [] then map[] else RedisStep(RedisAfter(events[..|events| - 1], ttl), events[|events| - 1], ttl)
  }

  /** One answer per event; only a consume can answer `true`. */
  function Answers(events: seq<Event>, ttl: int): (r: seq<bool>)
    ensures |r| == |events|
  {
    if events == [] then []
    else
      var past := events[..|events| - 1];
      Answers(past, ttl) + [Accepts(After(past, ttl), events[|events| - 1], ttl)]
  }

  function MapAnswers(events: seq<Event>, ttl: int): (r: seq<bool>)
    ensures |r| == |events|
  {
    if events == [] then []
    else
      var past, e := events[..|events| - 1], events[|events| - 1];
      MapAnswers(past, ttl) + [e.Consume? && MapAccepts(MapAfter(past, ttl), e.key, e.code, ttl, e.now)]
  }

  function RedisAnswers(events: seq<Event>, ttl: int): (r: seq<bool>)
    ensures |r| == |events|
  {
    if events == [] then []
    else
      var past, e := events[..|events| - 1], events[|events| - 1];
      RedisAnswers(past, ttl) + [e.Consume? && RedisAccepts(RedisAfter(past, ttl), e.key, e.code, e.now)]
  }

  // ----- Both back ends refine the reference -----

  datatype Live = Dead | Alive(entry: Entry)

  /** What a store still promises about a key at a given time. */
  function LiveAt(entries: Entries, key: string, ttl: int, now: int): Live {
    if key in entries && Fresh(entries[key], ttl, now) then Alive(entries[key]) else Dead
  }

  function RedisLiveAt(store: RedisStore, key: string, ttl: int, now: int): Live {
    if key in store && store[key].deadline.At? && Readable(store[key], now)
    then Alive(Entry(store[key].code, store[key].deadline.time - ttl))
    else Dead
  }

  ghost predicate SameLive(entries: Entries, latest: Entries, ttl: int, now: int) {
    forall k :: LiveAt(entries, k, ttl, now) == LiveAt(latest, k, ttl, now)
  }

  ghost predicate RedisSameLive(store: RedisStore, latest: Entries, ttl: int, now: int) {
    && (forall k :: RedisLiveAt(store, k, ttl, now) == LiveAt(latest, k, ttl, now))
    && (forall k | k in store :: store[k].deadline.At?)
  }

  function Clock(events: seq<Event>): int {
    if events == [] then 0 else events[|events| - 1].End()
  }

  lemma MapStepRefines(entries: Entries, latest: Entries, e: Event, ttl: int, t: int)
    requires SameLive(entries, latest, ttl, t) && t <= e.now <= e.End()
    ensures e.Consume? ==> MapAccepts(entries, e.key, e.code, ttl, e.now) == Accepts(latest, e, ttl)
    ensures SameLive(MapStep(entries, e, ttl), Step(latest, e, ttl), ttl, e.End())
  {
    forall k
      ensures LiveAt(entries, k, ttl, e.now) == LiveAt(latest, k, ttl, e.now)
      ensures LiveAt(MapStep(entries, e, ttl), k, ttl, e.End()) == LiveAt(Step(latest, e, ttl), k, ttl, e.End())
    {
      assert LiveAt(entries, k, ttl, t) == LiveAt(latest, k, ttl, t);
      if e.Consume? {
        assert LiveAt(entries, e.key, ttl, t) == LiveAt(latest, e.key, ttl, t);
      }
    }
    if e.Consume? {
      assert LiveAt(entries, e.key, ttl, e.now) == LiveAt(latest, e.key, ttl, e.now);
    }
  }

  lemma RedisStepRefines(store: RedisStore, latest: Entries, e: Event, ttl: int, t: int)
    requires ttl > 0 && RedisSameLive(store, latest, ttl, t) && t <= e.now <= e.End()
    ensures e.Consume? ==> RedisAccepts(store, e.key, e.code, e.now) == Accepts(latest, e, ttl)
    ensures RedisSameLive(RedisStep(store, e, ttl), Step(latest, e, ttl), ttl, e.End())
  {
    forall k
      ensures RedisLiveAt(store, k, ttl, e.now) == LiveAt(latest, k, ttl, e.now)
      ensures RedisLiveAt(RedisStep(store, e, ttl), k, ttl, e.End()) == LiveAt(Step(latest, e, ttl), k, ttl, e.End())
    {
      assert RedisLiveAt(store, k, ttl, t) == LiveAt(latest, k, ttl, t);
      if e.Consume? {
        assert RedisLiveAt(store, e.key, ttl, t) == LiveAt(latest, e.key, ttl, t);
      }
    }
    if e.Consume? {
      assert RedisLiveAt(store, e.key, ttl, e.now) == LiveAt(latest, e.key, ttl, e.now);
    }
  }

  /** Sweeping and early deletion of expired pairs never show. */
  lemma {:induction false} MapRefines(events: seq<Event>, ttl: int)
    requires WellTimed(events)
    ensures MapAnswers(events, ttl) == Answers(events, ttl)
    ensures SameLive(MapAfter(events, ttl), After(events, ttl), ttl, Clock(events))
  {
    if events != [] {
      var past, e := events[..|events| - 1], events[|events| - 1];
      MapRefines(past, ttl);
      MapStepRefines(MapAfter(past, ttl), After(past, ttl), e, ttl, if past == [] then e.now else Clock(past));
    }
  }

  /** Neither does Redis expiring keys whenever it likes. */
  lemma {:induction false} RedisRefines(events: seq<Event>, ttl: int)
    requires WellTimed(events) && ttl > 0
    ensures RedisAnswers(events, ttl) == Answers(events, ttl)
    ensures RedisSameLive(RedisAfter(events, ttl), After(events, ttl), ttl, Clock(events))
  {
    if events != [] {
      var past, e := events[..|events| - 1], events[|events| - 1];
      RedisRefines(past, ttl);
      RedisStepRefines(RedisAfter(past, ttl), After(past, ttl), e, ttl, if past == [] then e.now else Clock(past));
    }
  }

  /** The two back ends answer every run alike if and only if the time to live is positive. */
  lemma BackEndsAgreeExactly(ttl: int)
    ensures (forall events | WellTimed(events) :: MapAnswers(events, ttl) == RedisAnswers(events, ttl)) <==> ttl > 0
  {
    if ttl > 0 {
      forall events | WellTimed(events) ensures MapAnswers(events, ttl) == RedisAnswers(events, ttl) {
        MapRefines(events, ttl);
        RedisRefines(events, ttl);
      }
    } else {
      var events := NeverExpires(ttl);
      assert MapAnswers(events, ttl) != RedisAnswers(events, ttl);
    }
  }

  /** Redis keeps a code registered without a positive time to live; the map never accepts it. */
  lemma NeverExpires(ttl: int) returns (events: seq<Event>)
    requires ttl <= 0
    ensures WellTimed(events) && |events| == 2 && !MapAnswers(events, ttl)[1] && RedisAnswers(events, ttl)[1]
  {
    var one := [Register("k", "c", 0, 0)];
    events := one + [Consume("k", "c", 0)];
    assert one[..0] == [] && events[..1] == one;
    assert WellTimed(one) && WellTimed(events);
    assert MapAfter(one, ttl) == map["k" := Entry("c", 0)];
    assert RedisAfter(one, ttl) == map["k" := RedisValue("c", Never)];
  }

  // ----- The map does not fill up with expired codes -----

  /** The clock reading of the latest registration's sweep. */
  function LastSweep(events: seq<Event>): int {
    if events == [] then 0
    else if events[|events| - 1].Register? then events[|events| - 1].sweepAt
    else LastSweep(events[..|events| - 1])
  }

  /** In every run, a map of more than ten pairs holds only pairs that had not expired at the latest registration. */
  lemma {:induction false} LargeMapsAreFresh(events: seq<Event>, ttl: int)
    ensures |MapAfter(events, ttl)| <= 10
         || forall k | k in MapAfter(events, ttl) :: LastSweep(events) - MapAfter(events, ttl)[k].time < ttl
  {
    if events != [] {
      var past, e := events[..|events| - 1], events[|events| - 1];
      LargeMapsAreFresh(past, ttl);
      var before, after := MapAfter(past, ttl), MapAfter(events, ttl);
      if !e.Register? {
        assert after.Keys <= before.Keys;
        FewerKeys(after.Keys, before.Keys);
      }
    }
  }

  lemma FewerKeys(a: set<string>, b: set<string>)
    requires a <= b
    ensures |a| <= |b|
  {
    assert b == a + (b - a);
  }

  // ----- What an answer means, in terms of the history alone -----

  ghost predicate LatestRegistration(events: seq<Event>, key: string, j: int) {
    && 0 <= j < |events| && events[j].Register? && events[j].key == key
    && forall m | j < m < |events| :: !(events[m].Register? && events[m].key == key)
  }

  ghost predicate ConsumedAfter(events: seq<Event>, answers: seq<bool>, key: string, j: int)
    requires |answers| >= |events|
  {
    exists m :: 0 <= j < m < |events| && events[m].Consume? && events[m].key == key && answers[m]
  }

  ghost predicate Pending(events: seq<Event>, answers: seq<bool>, key: string, j: int)
    requires |answers| >= |events|
  {
    LatestRegistration(events, key, j) && !ConsumedAfter(events, answers, key, j)
  }

  /** The reference holds a key exactly when its latest registration is still unconsumed. */
  lemma {:induction false} HeldIffPending(events: seq<Event>, ttl: int, key: string) returns (j: int)
    ensures key in After(events, ttl) ==>
      Pending(events, Answers(events, ttl), key, j) && After(events, ttl)[key] == Entry(events[j].code, events[j].now)
    ensures key !in After(events, ttl) ==> forall i :: !Pending(events, Answers(events, ttl), key, i)
  {
    j := 0;
    if events != [] {
      var n := |events| - 1;
      var past, e := events[..n], events[n];
      var answers := Answers(events, ttl);
      assert answers[..n] == Answers(past, ttl);
      j := HeldIffPending(past, ttl, key);
      if e.Register? && e.key == key {
        j := n;
      } else if key in After(events, ttl) {
        assert LatestRegistration(events, key, j);
        assert !ConsumedAfter(events, answers, key, j);
      } else {
        forall i ensures !Pending(events, answers, key, i) {
          if LatestRegistration(events, key, i) {
            assert LatestRegistration(past, key, i);
            if key in After(past, ttl) {
              assert events[n].Consume? && events[n].key == key && answers[n];
            } else {
              assert !Pending(past, Answers(past, ttl), key, i);
              var m :| 0 <= i < m < n && past[m].Consume? && past[m].key == key && Answers(past, ttl)[m];
              assert events[m] == past[m] && answers[m];
            }
          }
        }
      }
    }
  }

  lemma {:induction false} AnswersOfPrefix(events: seq<Event>, ttl: int, i: nat)
    requires i <= |events|
    ensures Answers(events, ttl)[..i] == Answers(events[..i], ttl)
    ensures i < |events| ==> Answers(events, ttl)[i] == Accepts(After(events[..i], ttl), events[i], ttl)
  {
    if i < |events| {
      var past := events[..|events| - 1];
      AnswersOfPrefix(past, ttl, i);
      assert past[..i] == events[..i];
    } else {
      assert events[..i] == events;
    }
  }

  /** In every run of the map back end a consume succeeds exactly when the latest registration of its key
      carries the same code, has not been consumed since, and is younger than the time to live. */
  lemma ConsumeMeans(events: seq<Event>, ttl: int, i: nat)
    requires WellTimed(events) && i < |events| && events[i].Consume?
    ensures MapAnswers(events, ttl)[i] <==>
      exists j :: && Pending(events[..i], MapAnswers(events, ttl), events[i].key, j)
                  && events[j].code == events[i].code && events[i].now - events[j].now < ttl
    ensures ttl > 0 ==> RedisAnswers(events, ttl) == MapAnswers(events, ttl)
  {
    MapRefines(events, ttl);
    if ttl > 0 {
      RedisRefines(events, ttl);
    }
    AnswersOfPrefix(events, ttl, i);
    var past, answers := events[..i], Answers(events, ttl);
    var key := events[i].key;
    var j := HeldIffPending(past, ttl, key);
    forall j ensures Pending(past, answers, key, j) == Pending(past, Answers(past, ttl), key, j) {
      PendingByPrefix(past, answers, Answers(past, ttl), key, j);
    }
    if key in After(past, ttl) {
      assert Pending(past, answers, key, j);
      forall i | Pending(past, answers, key, i) ensures i == j {
        assert LatestRegistration(past, key, i) && LatestRegistration(past, key, j);
      }
    } else {
      assert forall j :: !Pending(past, Answers(past, ttl), key, j);
    }
  }

  lemma PendingByPrefix(events: seq<Event>, a: seq<bool>, b: seq<bool>, key: string, j: int)
    requires |b| == |events| <= |a| && a[..|b|] == b
    ensures Pending(events, a, key, j) == Pending(events, b, key, j)
  {
    assert forall m | 0 <= m < |b| :: a[m] == b[m];
    if ConsumedAfter(events, a, key, j) {
      var m :| 0 <= j < m < |events| && events[m].Consume? && events[m].key == key && a[m];
      assert b[m];
    }
    if ConsumedAfter(events, b, key, j) {
      var m :| 0 <= j < m < |events| && events[m].Consume? && events[m].key == key && b[m];
      assert a[m];
    }
  }

  // ----- Rolling back an older code -----

  lemma {:induction false} SameFuture(past: seq<Event>, past': seq<Event>, ttl: int, rest: seq<Event>)
    requires After(past, ttl) == After(past', ttl)
    ensures After(past + rest, ttl) == After(past' + rest, ttl)
    ensures Answers(past + rest, ttl)[|past|..] == Answers(past' + rest, ttl)[|past'|..]
  {
    if rest == [] {
      assert past + rest == past && past' + rest == past';
    } else {
      var n := |rest| - 1;
      SameFuture(past, past', ttl, rest[..n]);
      LastStep(past, rest, ttl);
      LastStep(past', rest, ttl);
    }
  }

  lemma LastStep(past: seq<Event>, rest: seq<Event>, ttl: int)
    requires rest != []
    ensures
      var before, e := past + rest[..|rest| - 1], rest[|rest| - 1];
      && After(past + rest, ttl) == Step(After(before, ttl), e, ttl)
      && Answers(past + rest, ttl)[|past|..] == Answers(before, ttl)[|past|..] + [Accepts(After(before, ttl), e, ttl)]
  {
    assert (past + rest)[..|past + rest| - 1] == past + rest[..|rest| - 1];
  }

  /** Invalidating a code other than the latest one registered for the key succeeds at nothing and leaves every
      later answer as it would have been without it. */
  lemma RollbackInvisible(past: seq<Event>, rollback: Event, rest: seq<Event>, ttl: int)
    requires rollback.Consume? && WellTimed(past + rest) && WellTimed(past + [rollback] + rest)
    requires forall j | LatestRegistration(past, rollback.key, j) :: past[j].code != rollback.code
    ensures !MapAnswers(past + [rollback] + rest, ttl)[|past|]
    ensures MapAnswers(past + [rollback] + rest, ttl)[|past| + 1..] == MapAnswers(past + rest, ttl)[|past|..]
    ensures ttl > 0 ==>
      && !RedisAnswers(past + [rollback] + rest, ttl)[|past|]
      && RedisAnswers(past + [rollback] + rest, ttl)[|past| + 1..] == RedisAnswers(past + rest, ttl)[|past|..]
  {
    var j := HeldIffPending(past, ttl, rollback.key);
    var past' := past + [rollback];
    assert past'[..|past|] == past;
    assert !Accepts(After(past, ttl), rollback, ttl);
    SameFuture(past', past, ttl, rest);
    AnswersOfPrefix(past' + rest, ttl, |past|);
    assert (past' + rest)[..|past|] == past;
    MapRefines(past' + rest, ttl);
    MapRefines(past + rest, ttl);
    if ttl > 0 {
      RedisRefines(past' + rest, ttl);
      RedisRefines(past + rest, ttl);
    }
  }
}
