/** The statistics of the request-body cache and the test for room on disk. */
module DiskCache {

  /** Sizes in bytes; the configured megabytes are already shifted. */
  datatype Config = Config(enabled: bool, threshold: int, maxBytes: int)

  datatype Stats = Stats(diskFiles: int, diskBytes: int, memoryBuffers: int, memoryBytes: int,
                         diskHits: int, memoryHits: int)

  predicate Available(config: Config, stats: Stats, size: int) {
    config.enabled && stats.diskBytes + size <= config.maxBytes
  }

  function AtLeastZero(n: int): int {
    if n < 0 then 0 else n
  }

  function Opened(stats: Stats, disk: bool, size: int): Stats {
    if disk then stats.(diskFiles := stats.diskFiles + 1, diskBytes := stats.diskBytes + size)
    else stats.(memoryBuffers := stats.memoryBuffers + 1, memoryBytes := stats.memoryBytes + size)
  }

  /** Only the disk counters are clamped at zero. */
  function Closed(stats: Stats, disk: bool, size: int): Stats {
    if disk then stats.(diskFiles := AtLeastZero(stats.diskFiles - 1), diskBytes := AtLeastZero(stats.diskBytes - size))
    else stats.(memoryBuffers := stats.memoryBuffers - 1, memoryBytes := stats.memoryBytes - size)
  }

  function Hit(stats: Stats, disk: bool): Stats {
    if disk then stats.(diskHits := stats.diskHits + 1) else stats.(memoryHits := stats.memoryHits + 1)
  }

  class Counters {
    var stats: Stats

    constructor ()
      ensures stats == Stats(0, 0, 0, 0, 0, 0)
    {
      stats := Stats(0, 0, 0, 0, 0, 0);
    }

    method Increment(disk: bool, size: int)
      modifies this
      ensures stats == Opened(old(stats), disk, size)
    {
      if disk {
        stats := stats.(diskFiles := stats.diskFiles + 1);
        stats := stats.(diskBytes := stats.diskBytes + size);
      } else {
        stats := stats.(memoryBuffers := stats.memoryBuffers + 1);
        stats := stats.(memoryBytes := stats.memoryBytes + size);
      }
    }

    method Decrement(disk: bool, size: int)
      modifies this
      ensures stats == Closed(old(stats), disk, size)
    {
      if disk {
        stats := stats.(diskFiles := stats.diskFiles - 1);
        if stats.diskFiles < 0 {
          stats := stats.(diskFiles := 0);
        }
        stats := stats.(diskBytes := stats.diskBytes - size);
        if stats.diskBytes < 0 {
          stats := stats.(diskBytes := 0);
        }
      } else {
        stats := stats.(memoryBuffers := stats.memoryBuffers - 1);
        stats := stats.(memoryBytes := stats.memoryBytes - size);
      }
    }

    method CountHit(disk: bool)
      modifies this
      ensures stats == Hit(old(stats), disk)
    {
      stats := if disk then stats.(diskHits := stats.diskHits + 1) else stats.(memoryHits := stats.memoryHits + 1);
    }
  }
}
