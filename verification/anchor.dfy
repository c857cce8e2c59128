/**
 * The synchronisation anchor shared by both time clients: the flag `inited`, the
 * network instant stored as milliseconds after 1970, and the local game-time
 * reading taken when the fetch finished.
 *
 * The read is computed exactly as the clients write it: 1970 + stamp + stored
 * reading. It does not add time elapsed since the sync, so once set it is constant.
 */
module Anchor {
  import opened Calendar

  /** `(ulong)(t - 1970-01-01).TotalMilliseconds`; an instant before 1970 saturates to 0. */
  function StampOf(t: Instant): (stamp: nat)
    ensures t >= Epoch1970 ==> Epoch1970 + stamp == t
    ensures t < Epoch1970 ==> stamp == 0
  {
    if t >= Epoch1970 then t - Epoch1970 else 0
  }

  class SyncAnchor {
    var inited: bool
    var networkUtcStamp: nat
    var syncLocalGameTime: nat

    constructor ()
      ensures !inited && networkUtcStamp == 0 && syncLocalGameTime == 0
    {
      inited := false;
      networkUtcStamp := 0;
      syncLocalGameTime := 0;
    }

    /**
     * The network UTC time as a reader sees it, given the system clock `utcNow`
     * at the moment of the read.
     */
    function NetworkUtcTime(utcNow: Instant): (t: Instant)
      reads this
      ensures !inited ==> t == utcNow
      ensures inited ==> t >= Epoch1970 && t - Epoch1970 == networkUtcStamp + syncLocalGameTime
    {
      if inited then Epoch1970 + networkUtcStamp + syncLocalGameTime else utcNow
    }

    /** The part of `_AsyncInit` that runs before the fetch is awaited: the flag is cleared. */
    method BeginInit()
      modifies this
      ensures !inited
      ensures networkUtcStamp == old(networkUtcStamp) && syncLocalGameTime == old(syncLocalGameTime)
    {
      inited := false;
    }

    /** The part that runs once the fetch returns: both fields are stored, then the flag is set. */
    method CompleteInit(stamp: nat, localReading: nat)
      modifies this
      ensures inited && networkUtcStamp == stamp && syncLocalGameTime == localReading
    {
      networkUtcStamp := stamp;
      syncLocalGameTime := localReading;
      inited := true;
    }
  }

  /** Before the flag is set every read is the system clock, whatever it shows. */
  lemma UnsyncedReadIsSystemClock(a: SyncAnchor, utcNow: Instant)
    requires !a.inited
    ensures a.NetworkUtcTime(utcNow) == utcNow
  {
  }

  /** Once the flag is set two reads agree however far the system clock has moved. */
  lemma SyncedReadIgnoresClock(a: SyncAnchor, now1: Instant, now2: Instant)
    requires a.inited
    ensures a.NetworkUtcTime(now1) == a.NetworkUtcTime(now2)
  {
  }

  /**
   * After an anchor is completed with the stamp of a fetched instant `t` from 1970 on,
   * every read returns `t` plus the local reading stored with it.
   */
  lemma SyncedReadIsFetchPlusReading(a: SyncAnchor, t: Instant, localReading: nat, utcNow: Instant)
    requires a.inited && t >= Epoch1970
    requires a.networkUtcStamp == StampOf(t) && a.syncLocalGameTime == localReading
    ensures a.NetworkUtcTime(utcNow) == t + localReading
  {
  }
}
