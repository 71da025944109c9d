/** Walking all enabled channels in batches, by last id, to detect changes on each or to apply what is pending. */
module BatchScan {
  import opened NameLists
  import opened UpstreamModels
  import opened UpstreamChannel
  import opened IntSets

  datatype Row = Row(enabled: bool, checkEnabled: bool, channel: Channel)
  type Table = map<int, Row>

  /** The rows the query selects; it returns the first `limit` of them in ascending order. */
  function EnabledAfter(table: Table, lastId: int): set<int> {
    set id | id in table && table[id].enabled && (lastId > 0 ==> id > lastId)
  }

  // ----- Applying everything pending on every enabled channel -----

  /** The application the batch handler asks for: every pending addition and removal, nothing ignored. */
  function ApplyEverything(c: Channel, now: int): Event {
    Apply(Normalize(c.pendingAdd), [], Normalize(c.pendingRemove), now)
  }

  predicate HasPending(row: Row) {
    row.checkEnabled && (Normalize(row.channel.pendingAdd) != [] || Normalize(row.channel.pendingRemove) != [])
  }

  function Processed(row: Row, now: int): Row {
    if HasPending(row) then row.(channel := AfterApply(row.channel, ApplyEverything(row.channel, now))) else row
  }

  /** A processed channel has nothing pending any more. It gains exactly its pending additions and loses exactly its
      pending removals, if and only if no addition holds a comma. */
  lemma ProcessedSettles(row: Row, now: int)
    requires Orderly(row.channel) && HasPending(row)
    ensures
      var c, c' := row.channel, Processed(row, now).channel;
      && Orderly(c') && NothingPending(c')
      && ((forall n :: n in Models(c'.models) <==>
             n in c.pendingAdd || (n in Models(c.models) && n !in c.pendingRemove))
          <==> CommaFree(c.pendingAdd))
  {
    var c := row.channel;
    var e := ApplyEverything(c, now);
    var c' := AfterApply(c, e);
    NormalizeNormal(c.pendingAdd);
    NormalizeNormal(c.pendingRemove);
    Selections(c, e);
    NextMembers(c, e);
    ApplyModels(c, e);
    ApplyLists(c, e);
    ApplyOrderly(c, e);
    ModelsCommaFree(c'.models);
    Empty(c'.pendingAdd);
    Empty(c'.pendingRemove);
  }

  lemma ProcessedDone(row: Row, now: int)
    requires Orderly(row.channel) && row.checkEnabled
    ensures NothingPending(Processed(row, now).channel)
  {
    NormalizeNormal(row.channel.pendingAdd);
    NormalizeNormal(row.channel.pendingRemove);
    if HasPending(row) {
      ProcessedSettles(row, now);
    }
  }

  // ----- Detecting on every enabled channel -----

  /** The upstream and the model mapping of every channel, and the time at which its turn comes. */
  datatype Upstreams = Upstreams(fetch: int -> Fetch, mapping: int -> Mapping, now: int -> int, minInterval: int)

  function DetectOn(up: Upstreams, id: int): Event {
    Detect(up.fetch(id), up.mapping(id), up.now(id), false, up.minInterval, true)
  }

  /** What the periodic detection does to a row: nothing unless checking is on, else an unforced detection that may sync
      automatically. */
  function Detected(row: Row, up: Upstreams, id: int, matches: Matcher): Row {
    if row.checkEnabled then row.(channel := AfterDetect(row.channel, DetectOn(up, id), matches)) else row
  }

  // ----- The scan -----

  /** What is done to a row, which may depend on its id. */
  type RowStep = (int, Row) -> Row

  function ApplyStep(now: int): RowStep {
    (_, row) => Processed(row, now)
  }

  function DetectStep(up: Upstreams, matches: Matcher): RowStep {
    (id, row) => Detected(row, up, id, matches)
  }

  ghost predicate KeepsEnabled(step: RowStep) {
    forall id, row :: step(id, row).enabled == row.enabled
  }

  ghost predicate PositiveIds(table: Table) {
    forall id | id in table :: id > 0
  }

  /** `done` is what the table looks like once the rows in `visited` have been processed. */
  ghost predicate Progress(before: Table, done: Table, visited: seq<int>, step: RowStep) {
    && done.Keys == before.Keys
    && forall id | id in before :: done[id] == if id in visited then step(id, before[id]) else before[id]
  }

  /** No enabled, checked and orderly channel has anything pending any more. */
  ghost predicate Drained(before: Table, done: Table)
    requires done.Keys == before.Keys
  {
    forall id | id in before && before[id].enabled && before[id].checkEnabled && Orderly(before[id].channel) ::
      NothingPending(done[id].channel)
  }

  /** Rows of channels that are not enabled or not checked are as they were. */
  ghost predicate OthersUntouched(before: Table, done: Table)
    requires done.Keys == before.Keys
  {
    forall id | id in before && !(before[id].enabled && before[id].checkEnabled) :: done[id] == before[id]
  }

  method ApplyAll(table: Table, batchSize: nat, now: int) returns (after: Table, visited: seq<int>)
    requires PositiveIds(table) && batchSize >= 1
    ensures Ascending(visited)
    ensures forall id :: id in visited <==> id in table && table[id].enabled
    ensures Progress(table, after, visited, ApplyStep(now))
    ensures Drained(table, after) && OthersUntouched(table, after)
  {
    after, visited := ScanAll(table, batchSize, ApplyStep(now));
    forall id | id in table && table[id].enabled && table[id].checkEnabled && Orderly(table[id].channel)
      ensures NothingPending(after[id].channel)
    {
      ProcessedDone(table[id], now);
    }
  }

  /** When the periodic detection looks at a channel: it was never checked, or the interval has passed. */
  predicate Due(c: Channel, up: Upstreams, id: int) {
    c.lastCheck <= 0 || up.now(id) - c.lastCheck >= up.minInterval
  }

  /** What the detection leaves on every enabled and checked channel. One that is not due is as it was. One that is due
      and reaches its upstream has orderly lists, with the differences found pending, or with the additions already
      synced where the channel asks for that. */
  ghost predicate UpToDate(before: Table, done: Table, up: Upstreams, matches: Matcher)
    requires done.Keys == before.Keys
  {
    forall id | id in before && before[id].enabled && before[id].checkEnabled ::
      var c, c' := before[id].channel, done[id].channel;
      if !Due(c, up, id) then c' == c
      else up.fetch(id).Fetched? ==>
        var names, mapping := up.fetch(id).names, up.mapping(id);
        && Orderly(c') && c'.lastCheck == up.now(id)
        && c'.pendingAdd == (if c.autoSync then [] else FoundAdd(c, names, mapping, matches))
        && c'.pendingRemove == FoundRemove(c, names, mapping)
  }

  method DetectAll(table: Table, batchSize: nat, up: Upstreams, matches: Matcher)
    returns (after: Table, visited: seq<int>)
    requires PositiveIds(table) && batchSize >= 1
    ensures Ascending(visited)
    ensures forall id :: id in visited <==> id in table && table[id].enabled
    ensures Progress(table, after, visited, DetectStep(up, matches))
    ensures UpToDate(table, after, up, matches) && OthersUntouched(table, after)
  {
    after, visited := ScanAll(table, batchSize, DetectStep(up, matches));
    forall id | id in table && table[id].enabled && table[id].checkEnabled && Due(table[id].channel, up, id)
                && up.fetch(id).Fetched?
      ensures Orderly(after[id].channel)
    {
      DetectOrderly(table[id].channel, DetectOn(up, id), matches);
    }
  }

  method ScanAll(table: Table, batchSize: nat, step: RowStep) returns (after: Table, visited: seq<int>)
    requires PositiveIds(table) && batchSize >= 1 && KeepsEnabled(step)
    ensures Ascending(visited)
    ensures forall id :: id in visited <==> id in table && table[id].enabled
    ensures Progress(table, after, visited, step)
  {
    after, visited := table, [];
    var lastId := 0;
    while true
      invariant lastId >= 0 && Ascending(visited)
      invariant forall id | id in visited :: 0 < id <= lastId
      invariant forall id :: id in visited <==> id in table && table[id].enabled && id <= lastId
      invariant Progress(table, after, visited, step)
      decreases EnabledAfter(table, lastId)
    {
      var ids := EnabledAfter(after, lastId);
      ProgressEnabled(table, after, visited, lastId, step);
      var channels := Take(ids, batchSize);
      TakeBatch(ids, batchSize);
      if |channels| == 0 {
        return;
      }
      ghost var before := lastId;
      lastId := channels[|channels| - 1];
      BatchCovers(table, ids, channels, before);
      after := ProcessBatch(table, after, visited, channels, step);
      AscendingConcat(visited, channels, before);
      visited := visited + channels;
      if |channels| < batchSize {
        return;
      }
    }
  }

  /** Processing never changes which rows the query selects. */
  lemma ProgressEnabled(table: Table, done: Table, visited: seq<int>, lastId: int, step: RowStep)
    requires Progress(table, done, visited, step) && KeepsEnabled(step)
    ensures EnabledAfter(done, lastId) == EnabledAfter(table, lastId)
  {
    forall id | id in table ensures done[id].enabled == table[id].enabled {
      assert step(id, table[id]).enabled == table[id].enabled;
    }
    assert done.Keys == table.Keys;
  }

  lemma AscendingConcat(a: seq<int>, b: seq<int>, m: int)
    requires Ascending(a) && Ascending(b)
    requires (forall x | x in a :: x <= m) && forall x | x in b :: m < x
    ensures Ascending(a + b)
  {
    assert forall i | 0 <= i < |a| :: a[i] in a;
    assert forall j | 0 <= j < |b| :: b[j] in b;
  }

  /** After a batch exactly the enabled rows up to its last id are behind us. */
  lemma BatchCovers(table: Table, ids: set<int>, batch: seq<int>, before: int)
    requires PositiveIds(table) && before >= 0 && ids == EnabledAfter(table, before)
    requires batch != [] && Ascending(batch) && forall id | id in batch :: id in ids
    requires forall id, x | id in ids && id !in batch && x in batch :: x < id
    ensures
      var last := batch[|batch| - 1];
      && before < last
      && (forall id | id in batch :: before < id <= last)
      && (forall id | id in ids && id <= last :: id in batch)
      && EnabledAfter(table, last) < EnabledAfter(table, before)
  {
    var last := batch[|batch| - 1];
    assert last in batch;
    forall id | id in batch ensures before < id <= last {
      var i :| 0 <= i < |batch| && batch[i] == id;
    }
    assert last in EnabledAfter(table, before) && last !in EnabledAfter(table, last);
  }

  method ProcessBatch(ghost table: Table, start: Table, ghost visited: seq<int>, channels: seq<int>, step: RowStep)
    returns (after: Table)
    requires Progress(table, start, visited, step)
    requires Ascending(channels)
    requires forall id | id in channels :: id in table && id !in visited
    ensures Progress(table, after, visited + channels, step)
  {
    after := start;
    for i := 0 to |channels|
      invariant Progress(table, after, visited + channels[..i], step)
    {
      var id := channels[i];
      assert id !in visited + channels[..i];
      after := after[id := step(id, after[id])];
      assert channels[..i + 1] == channels[..i] + [id];
    }
    assert channels[..|channels|] == channels;
  }
}
