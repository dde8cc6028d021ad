/** The counters, as plain natural numbers. */
module Counters {
  datatype Snapshot = Snapshot(
    packets: nat, invalid: nat, wrongVersion: nat, stale: nat, duplicates: nat, unneeded: nat, rejected: nat,
    recovered: nat, recoveryFailures: nat, batches: nat, blockMarkers: nat, decodeErrors: nat, entries: nat,
    transactions: nat, dropped: nat)

  const ZERO := Snapshot(0, 0, 0, 0, 0, 0, 0, 0, 0, 0, 0, 0, 0, 0, 0)

  class Stats {
    var now: Snapshot

    constructor ()
      ensures now == ZERO
    {
      now := ZERO;
    }
  }
}
