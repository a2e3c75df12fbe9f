/** The record that every darkstat table chains together, and the orders it can be listed in. */
module Buckets {

  /** One entry of a table: a host, a TCP or UDP port, or an IP protocol, with its byte counters. */
  class Bucket<K> {
    const key: K
    var next: Bucket?<K>
    var bytesIn: nat
    var bytesOut: nat
    var total: nat
    var lastSeen: int

    constructor (key: K)
      ensures this.key == key && next == null
      ensures bytesIn == 0 && bytesOut == 0 && total == 0 && lastSeen == 0
    {
      this.key, next := key, null;
      bytesIn, bytesOut, total, lastSeen := 0, 0, 0, 0;
    }
  }

  datatype SortDir = In | Out | Total | LastSeen

  /** The figure a listing in direction `dir` is ordered by, largest first. */
  function Rank<K>(b: Bucket<K>, dir: SortDir): int
    reads b
  {
    match dir
    case In => b.bytesIn
    case Out => b.bytesOut
    case Total => b.total
    case LastSeen => b.lastSeen
  }
}
