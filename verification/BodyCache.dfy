/** Choosing where a request body goes, and the accounting of all bodies that are open. */
module BodyCache {
  import opened DiskCache
  import opened BodyStorage
  import opened Sequences

  datatype Storage = InMemory(memory: Memory) | OnDisk(disk: Disk) {
    predicate IsDisk() {
      OnDisk?
    }

    function Size(): nat {
      if OnDisk? then disk.size else |memory.data|
    }

    predicate IsOpen() {
      if OnDisk? then !disk.closed else !memory.closed
    }

    function AfterClose(): Storage {
      if OnDisk? then OnDisk(DiskStep(disk, Close)) else InMemory(MemoryStep(memory, Close))
    }
  }

  function Fresh(disk: bool, data: seq<byte>): Storage {
    if disk then OnDisk(Disk(File(data, 0), |data|, false)) else InMemory(Memory(data, 0, false))
  }

  /** A request body: the bytes it yields, and whether reading then fails instead of ending. */
  datatype Reader = Reader(bytes: seq<byte>, fails: bool)

  datatype Error = TooLarge | ReaderFailed | DiskFailed
  datatype Created = Created(storage: Storage, stats: Stats) | Refused(error: Error)

  // ----- Creation -----

  /** `diskWorks` says whether creating and writing the file succeeds. */
  predicate UsesDisk(config: Config, stats: Stats, size: int) {
    config.enabled && size >= config.threshold && Available(config, stats, size)
  }

  function FromBytes(config: Config, stats: Stats, data: seq<byte>, diskWorks: bool): Created {
    var disk := UsesDisk(config, stats, |data|) && diskWorks;
    Created(Fresh(disk, data), Opened(stats, disk, |data|))
  }

  /** A request that declares its length is streamed straight to disk when there is room for that length. */
  predicate Direct(config: Config, stats: Stats, contentLength: int) {
    contentLength > 0 && UsesDisk(config, stats, contentLength)
  }

  /** Reading through a limit of one byte more than allowed: what arrives, and whether the failure is seen. */
  function Limit(maxBytes: int): nat {
    if maxBytes + 1 > 0 then maxBytes + 1 else 0
  }

  function Taken(reader: Reader, maxBytes: int): seq<byte> {
    if |reader.bytes| <= Limit(maxBytes) then reader.bytes else reader.bytes[..Limit(maxBytes)]
  }

  predicate FailureSeen(reader: Reader, maxBytes: int) {
    reader.fails && |reader.bytes| < Limit(maxBytes)
  }

  function FromReader(config: Config, stats: Stats, reader: Reader, contentLength: int, maxBytes: int, diskWorks: bool)
    : Created
  {
    var data := Taken(reader, maxBytes);
    if Direct(config, stats, contentLength) then
      if !diskWorks then Refused(DiskFailed)
      else if FailureSeen(reader, maxBytes) then Refused(ReaderFailed)
      else if |data| > maxBytes then Refused(TooLarge)
      else Created(Fresh(true, data), Hit(Opened(stats, true, |data|), true))
    else if FailureSeen(reader, maxBytes) then Refused(ReaderFailed)
    else if |data| > maxBytes then Refused(TooLarge)
    else
      var r := FromBytes(config, stats, data, diskWorks);
      r.(stats := Hit(r.stats, r.storage.IsDisk()))
  }

  /** When file I/O works, whichever way the body goes, exactly the bodies that end within the limit are accepted,
      and they are stored in full with the cursor at the start. */
  lemma AcceptsExactly(config: Config, stats: Stats, reader: Reader, contentLength: int, maxBytes: int)
    ensures
      var r := FromReader(config, stats, reader, contentLength, maxBytes, true);
      && (r.Created? <==> !reader.fails && |reader.bytes| <= maxBytes)
      && (r.Created? ==> r.storage == Fresh(r.storage.IsDisk(), reader.bytes))
      && (r.Refused? ==> r.error == if |reader.bytes| > maxBytes then TooLarge else ReaderFailed)
  {
  }

  // ----- Where a body goes -----

  /** The size counts for the disk and there is room for it. */
  predicate DiskSized(config: Config, stats: Stats, size: int) {
    size >= config.threshold && stats.diskBytes + size <= config.maxBytes
  }

  /** Bytes at hand go to disk exactly when the cache is on, files work, and their number is large enough and fits. */
  lemma BytesGoToDisk(config: Config, stats: Stats, data: seq<byte>, diskWorks: bool)
    ensures
      var r := FromBytes(config, stats, data, diskWorks);
      && r.Created? && r.storage == Fresh(r.storage.IsDisk(), data)
      && (r.storage.IsDisk() <==>
            config.enabled && diskWorks && |data| >= config.threshold && stats.diskBytes + |data| <= config.maxBytes)
  {
  }

  /** A request body goes to disk exactly when the cache is on, files work, and the length it declares or the number of
      bytes it has is large enough and fits. It is refused when it is too long, reading it fails, or the file fails that
      its declared length asked for. */
  lemma ReaderGoesToDisk(config: Config, stats: Stats, reader: Reader, contentLength: int, maxBytes: int,
                         diskWorks: bool)
    ensures
      var r := FromReader(config, stats, reader, contentLength, maxBytes, diskWorks);
      var declared := contentLength > 0 && DiskSized(config, stats, contentLength);
      && (r.Created? <==>
            !reader.fails && |reader.bytes| <= maxBytes && (diskWorks || !(config.enabled && declared)))
      && (r.Created? ==>
            && r.storage == Fresh(r.storage.IsDisk(), reader.bytes)
            && (r.storage.IsDisk() <==>
                  config.enabled && diskWorks && (declared || DiskSized(config, stats, |reader.bytes|))))
  {
  }

  // ----- The creators as they run -----

  datatype BodyHandle = MemoryBody(memory: MemoryStorage) | DiskBody(disk: DiskStorage) {
    ghost function Value(): Storage
      reads if MemoryBody? then {memory as object} else {disk as object}
    {
      if MemoryBody? then InMemory(memory.state) else OnDisk(disk.state)
    }
  }

  method CreateBodyStorage(config: Config, counters: Counters, data: seq<byte>, diskWorks: bool) returns (h: BodyHandle)
    modifies counters
    ensures Created(h.Value(), counters.stats) == FromBytes(config, old(counters.stats), data, diskWorks)
  {
    if config.enabled && |data| >= config.threshold && Available(config, counters.stats, |data|) {
      if diskWorks {
        var storage := new DiskStorage(data, counters);
        return DiskBody(storage);
      }
    }
    var storage := new MemoryStorage(data, counters);
    return MemoryBody(storage);
  }

  datatype Reply = Handle(handle: BodyHandle) | Failure(error: Error)

  method CreateBodyStorageFromReader(config: Config, counters: Counters, reader: Reader, contentLength: int,
                                     maxBytes: int, diskWorks: bool) returns (r: Reply)
    modifies counters
    ensures
      var spec := FromReader(config, old(counters.stats), reader, contentLength, maxBytes, diskWorks);
      match r
      case Handle(h) => spec == Created(h.Value(), counters.stats)
      case Failure(error) => spec == Refused(error) && counters.stats == old(counters.stats)
  {
    var data := Taken(reader, maxBytes);
    if config.enabled && contentLength > 0 && contentLength >= config.threshold
       && Available(config, counters.stats, contentLength) {
      if !diskWorks {
        return Failure(DiskFailed);
      }
      if FailureSeen(reader, maxBytes) {
        return Failure(ReaderFailed);
      }
      if |data| > maxBytes {
        return Failure(TooLarge);
      }
      var storage := new DiskStorage(data, counters);
      counters.CountHit(true);
      return Handle(DiskBody(storage));
    }
    if FailureSeen(reader, maxBytes) {
      return Failure(ReaderFailed);
    }
    if |data| > maxBytes {
      return Failure(TooLarge);
    }
    var h := CreateBodyStorage(config, counters, data, diskWorks);
    counters.CountHit(h.DiskBody?);
    return Handle(h);
  }

  // ----- Accounting over whole runs -----

  datatype Event =
    | CreateBytes(data: seq<byte>, diskWorks: bool)
    | CreateReader(reader: Reader, contentLength: int, maxBytes: int, diskWorks: bool)
    | CloseOne(index: nat)

  /** Every storage ever created, in order, and the global statistics. */
  datatype World = World(storages: seq<Storage>, stats: Stats)

  const EMPTY := World([], Stats(0, 0, 0, 0, 0, 0))

  function Creation(w: World, e: Event, config: Config): Created
    requires !e.CloseOne?
  {
    if e.CreateBytes? then FromBytes(config, w.stats, e.data, e.diskWorks)
    else FromReader(config, w.stats, e.reader, e.contentLength, e.maxBytes, e.diskWorks)
  }

  /** Closing a storage again changes nothing. */
  function Step(w: World, e: Event, config: Config): World {
    if e.CloseOne? then
      if e.index >= |w.storages| || !w.storages[e.index].IsOpen() then w
      else
        var s := w.storages[e.index];
        World(w.storages[e.index := s.AfterClose()], Closed(w.stats, s.IsDisk(), s.Size()))
    else
      var r := Creation(w, e, config);
      if r.Created? then World(w.storages + [r.storage], r.stats) else w
  }

  function Run(events: seq<Event>, config: Config): World {
    if events == [] then EMPTY else Step(Run(events[..|events| - 1], config), events[|events| - 1], config)
  }

  predicate Counts(s: Storage, disk: bool) {
    s.IsOpen() && s.IsDisk() == disk
  }

  function OpenCount(storages: seq<Storage>, disk: bool): nat {
    if storages == [] then 0
    else OpenCount(storages[..|storages| - 1], disk) + if Counts(storages[|storages| - 1], disk) then 1 else 0
  }

  function OpenBytes(storages: seq<Storage>, disk: bool): nat {
    if storages == [] then 0
    else
      var s := storages[|storages| - 1];
      OpenBytes(storages[..|storages| - 1], disk) + if Counts(s, disk) then s.Size() else 0
  }

  ghost predicate Balanced(w: World) {
    && w.stats.diskFiles == OpenCount(w.storages, true) && w.stats.diskBytes == OpenBytes(w.storages, true)
    && w.stats.memoryBuffers == OpenCount(w.storages, false) && w.stats.memoryBytes == OpenBytes(w.storages, false)
  }

  lemma OpenOneMore(storages: seq<Storage>, s: Storage, disk: bool)
    ensures OpenCount(storages + [s], disk) == OpenCount(storages, disk) + if Counts(s, disk) then 1 else 0
    ensures OpenBytes(storages + [s], disk) == OpenBytes(storages, disk) + if Counts(s, disk) then s.Size() else 0
  {
    assert (storages + [s])[..|storages|] == storages;
  }

  lemma {:induction false} CloseOneOf(storages: seq<Storage>, i: nat, disk: bool)
    requires i < |storages| && storages[i].IsOpen()
    ensures
      var s := storages[i];
      var storages' := storages[i := s.AfterClose()];
      && OpenCount(storages, disk) == OpenCount(storages', disk) + (if s.IsDisk() == disk then 1 else 0)
      && OpenBytes(storages, disk) == OpenBytes(storages', disk) + (if s.IsDisk() == disk then s.Size() else 0)
  {
    var n, s := |storages| - 1, storages[i];
    var storages' := storages[i := s.AfterClose()];
    if i < n {
      CloseOneOf(storages[..n], i, disk);
      assert storages'[..n] == storages[..n][i := s.AfterClose()];
    } else {
      assert storages'[..n] == storages[..n];
    }
  }

  /** Closing an open storage of a balanced world never meets the clamp. */
  lemma ClampNeverFires(w: World, i: nat)
    requires Balanced(w) && i < |w.storages| && w.storages[i].IsOpen() && w.storages[i].IsDisk()
    ensures w.stats.diskFiles - 1 >= 0 && w.stats.diskBytes - w.storages[i].Size() >= 0
  {
    CloseOneOf(w.storages, i, true);
  }

  /** Equal up to the hit counts. */
  ghost predicate SameUsage(a: Stats, b: Stats) {
    && a.diskFiles == b.diskFiles && a.diskBytes == b.diskBytes
    && a.memoryBuffers == b.memoryBuffers && a.memoryBytes == b.memoryBytes
  }

  /** A creation opens one storage and counts exactly that one. */
  lemma CreationCounts(w: World, e: Event, config: Config)
    requires !e.CloseOne? && Creation(w, e, config).Created?
    ensures
      var Created(s, stats) := Creation(w, e, config);
      s.IsOpen() && SameUsage(stats, Opened(w.stats, s.IsDisk(), s.Size()))
  {
  }

  lemma OpenedBalanced(w: World, s: Storage, stats: Stats)
    requires Balanced(w) && s.IsOpen()
    requires SameUsage(stats, Opened(w.stats, s.IsDisk(), s.Size()))
    ensures Balanced(World(w.storages + [s], stats))
  {
    OpenOneMore(w.storages, s, true);
    OpenOneMore(w.storages, s, false);
  }

  lemma ClosedBalanced(w: World, i: nat)
    requires Balanced(w) && i < |w.storages| && w.storages[i].IsOpen()
    ensures
      var s := w.storages[i];
      Balanced(World(w.storages[i := s.AfterClose()], Closed(w.stats, s.IsDisk(), s.Size())))
  {
    CloseOneOf(w.storages, i, true);
    CloseOneOf(w.storages, i, false);
  }

  lemma StepBalanced(w: World, e: Event, config: Config)
    requires Balanced(w)
    ensures Balanced(Step(w, e, config))
  {
    if e.CloseOne? {
      if e.index < |w.storages| && w.storages[e.index].IsOpen() {
        ClosedBalanced(w, e.index);
      }
    } else {
      var r := Creation(w, e, config);
      if r.Created? {
        CreationCounts(w, e, config);
        OpenedBalanced(w, r.storage, r.stats);
      }
    }
  }

  /** Over every run of creations and closes the counters are the number and total size of the open storages. */
  lemma {:induction false} RunBalanced(events: seq<Event>, config: Config)
    ensures Balanced(Run(events, config))
  {
    if events != [] {
      RunBalanced(events[..|events| - 1], config);
      StepBalanced(Run(events[..|events| - 1], config), events[|events| - 1], config);
    }
  }

  // ----- Where the bodies of a run went, and what was counted for them -----

  /** What is true of the creation of a storage that has this size, on disk or not, given the usage before. */
  predicate Routed(config: Config, before: Stats, e: Event, disk: bool, size: int) {
    var declared := if e.CreateReader? then e.contentLength else 0;
    if disk then
      && config.enabled && !e.CloseOne? && e.diskWorks
      && ((size >= config.threshold && before.diskBytes + size <= config.maxBytes)
          || (declared > 0 && declared >= config.threshold && before.diskBytes + declared <= config.maxBytes))
    else
      && !e.CloseOne?
      && (!config.enabled || !e.diskWorks || size < config.threshold || before.diskBytes + size > config.maxBytes)
  }

  lemma CreationRouted(w: World, e: Event, config: Config)
    requires !e.CloseOne? && Creation(w, e, config).Created?
    ensures
      var s := Creation(w, e, config).storage;
      Routed(config, w.stats, e, s.IsDisk(), s.Size())
  {
    if e.CreateBytes? {
      BytesGoToDisk(config, w.stats, e.data, e.diskWorks);
    } else {
      ReaderGoesToDisk(config, w.stats, e.reader, e.contentLength, e.maxBytes, e.diskWorks);
    }
  }

  /** Over every run, each storage on disk was created by an event whose size or declared length met the threshold and
      fitted, with the cache on and files working; each storage in memory was below the threshold, had no room, or came
      when the cache was off or the file failed. */
  lemma {:induction false} RunRouted(events: seq<Event>, config: Config, k: nat) returns (i: nat)
    requires k < |Run(events, config).storages|
    ensures i < |events| && |Run(events[..i], config).storages| == k
    ensures
      var s := Run(events, config).storages[k];
      Routed(config, Run(events[..i], config).stats, events[i], s.IsDisk(), s.Size())
  {
    var n := |events| - 1;
    var past, e := events[..n], events[n];
    var before := Run(past, config);
    if k < |before.storages| {
      i := RunRouted(past, config, k);
      assert past[..i] == events[..i];
    } else {
      i := n;
      CreationRouted(before, e, config);
    }
  }

  /** How many request bodies of the run were accepted onto disk, or into memory. */
  function Accepted(events: seq<Event>, config: Config, disk: bool): nat {
    if events == [] then 0
    else
      var past, e := events[..|events| - 1], events[|events| - 1];
      Accepted(past, config, disk)
      + if e.CreateReader? then AcceptedOne(Run(past, config), e, config, disk) else 0
  }

  function AcceptedOne(w: World, e: Event, config: Config, disk: bool): nat
    requires e.CreateReader?
  {
    var r := Creation(w, e, config);
    if r.Created? && r.storage.IsDisk() == disk then 1 else 0
  }

  /** Over every run the hit counters are the numbers of request bodies accepted onto disk and into memory. */
  lemma {:induction false} RunHits(events: seq<Event>, config: Config)
    ensures Run(events, config).stats.diskHits == Accepted(events, config, true)
    ensures Run(events, config).stats.memoryHits == Accepted(events, config, false)
  {
    if events != [] {
      RunHits(events[..|events| - 1], config);
    }
  }

  // ----- The disk limit -----

  const MEGABYTE := 1_048_576

  /** Threshold and limit are configured in whole megabytes. */
  predicate InMegabytes(config: Config) {
    config.threshold % MEGABYTE == 0 && config.maxBytes % MEGABYTE == 0
  }

  /** A body that is accepted although it runs past the length it declared. */
  predicate Understated(e: Event) {
    && e.CreateReader? && 0 < e.contentLength < |e.reader.bytes| <= e.maxBytes
    && !e.reader.fails && e.diskWorks
  }

  /** The one way out of the limit is a body streamed straight to disk that does not fit. */
  lemma LeavesLimit(w: World, e: Event, config: Config)
    requires Balanced(w) && w.stats.diskBytes <= config.maxBytes < Step(w, e, config).stats.diskBytes
    ensures Understated(e)
  {
    if e.CloseOne? && e.index < |w.storages| && w.storages[e.index].IsOpen() {
      CloseOneOf(w.storages, e.index, true);
    }
  }

  function Blank(n: nat): (r: seq<byte>)
    ensures |r| == n
  {
    seq(n, _ => 0)
  }

  /** A body of n bytes as the first one, with everything allowed on disk. */
  lemma FirstOnDisk(n: nat, config: Config)
    requires config.enabled && config.threshold == 0 && n <= config.maxBytes
    ensures Run([CreateBytes(Blank(n), true)], config).stats == Stats(1, n, 0, 0, 0, 0)
  {
    var e := CreateBytes(Blank(n), true);
    assert [e][..0] == [];
    assert Run([e], config) == Step(EMPTY, e, config);
  }

  /** Whether the event keeps disk usage within the limit, whatever happened before and whatever is configured. */
  ghost predicate KeepsLimit(e: Event) {
    forall past, config | InMegabytes(config) && Run(past, config).stats.diskBytes <= config.maxBytes ::
      Step(Run(past, config), e, config).stats.diskBytes <= config.maxBytes
  }

  /** The smallest number of whole megabytes that holds n bytes. */
  function Rounded(n: nat): (r: nat)
    ensures n <= r && r % MEGABYTE == 0
  {
    (n + MEGABYTE - 1) / MEGABYTE * MEGABYTE
  }

  /** Fill the disk up to the declared length, and the rest of the body no longer fits. */
  lemma Overfills(e: Event)
    requires Understated(e)
    ensures !KeepsLimit(e)
  {
    var limit := Rounded(e.contentLength);
    var config, n := Config(true, 0, limit), limit - e.contentLength;
    var past := [CreateBytes(Blank(n), true)];
    FirstOnDisk(n, config);
    assert InMegabytes(config);
    assert Step(Run(past, config), e, config).stats.diskBytes == n + |e.reader.bytes|;
  }

  /** An event keeps the limit in every reachable state of every configuration if and only if it is not an accepted
      body with an understated length. */
  lemma LimitKeptExactly(e: Event)
    ensures KeepsLimit(e) <==> !Understated(e)
  {
    if Understated(e) {
      Overfills(e);
    } else {
      forall past, config | InMegabytes(config) && Run(past, config).stats.diskBytes <= config.maxBytes
        ensures Step(Run(past, config), e, config).stats.diskBytes <= config.maxBytes
      {
        RunBalanced(past, config);
        if Step(Run(past, config), e, config).stats.diskBytes > config.maxBytes {
          LeavesLimit(Run(past, config), e, config);
        }
      }
    }
  }

  /** So without such bodies disk usage stays within a fixed limit over every run. */
  lemma {:induction false} LimitHolds(events: seq<Event>, config: Config)
    requires config.maxBytes >= 0 && forall i | 0 <= i < |events| :: !Understated(events[i])
    ensures Run(events, config).stats.diskBytes <= config.maxBytes
  {
    if events != [] {
      var past, e := events[..|events| - 1], events[|events| - 1];
      LimitHolds(past, config);
      RunBalanced(past, config);
      if Run(events, config).stats.diskBytes > config.maxBytes {
        LeavesLimit(Run(past, config), e, config);
      }
    }
  }

  /** One such body: a megabyte declared, with a limit of one megabyte, and a byte more delivered. */
  lemma UnderstatedLengthBreaksLimit()
    ensures
      var config := Config(true, MEGABYTE, MEGABYTE);
      var e := CreateReader(Reader(Blank(MEGABYTE + 1), false), MEGABYTE, 32 * MEGABYTE, true);
      InMegabytes(config) && Run([e], config).stats.diskBytes == config.maxBytes + 1
  {
    var config := Config(true, MEGABYTE, MEGABYTE);
    var e := CreateReader(Reader(Blank(MEGABYTE + 1), false), MEGABYTE, 32 * MEGABYTE, true);
    assert [e][..0] == [];
    assert Run([e], config) == Step(EMPTY, e, config);
    assert Creation(EMPTY, e, config).stats.diskBytes == MEGABYTE + 1;
  }
}
