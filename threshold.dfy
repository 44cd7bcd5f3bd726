/** The age test: a node qualifies when its last-modified time is strictly before
    the deletion threshold, which is the current time minus the configured number
    of days. Calendar arithmetic is abstracted to milliseconds: one day is always
    86 400 000 ms. */
module Threshold {

  const MsPerDay: int := 86_400_000

  /** The current time `now` moved back by `days` days (Calendar.add with a
      negative amount). `days` is not validated, as in the program: zero gives
      `now` itself and a negative count a threshold in the future. */
  function CalculateDeletionThreshold(now: int, days: int): (t: int)
    ensures days > 0 ==> t < now
    ensures days == 0 ==> t == now
    ensures days < 0 ==> t > now
    ensures (now - t) % MsPerDay == 0
  {
    now - days * MsPerDay
  }

  /** Date.before: true exactly when the node is more than `days` whole days
      old at time `now`; a node exactly `days` days old does not qualify. */
  function IsOlderThanThreshold(mtime: int, now: int, days: int): (older: bool)
    ensures older <==> now - mtime > days * MsPerDay
  {
    mtime < CalculateDeletionThreshold(now, days)
  }

  /** A later clock reading never gives an earlier threshold. */
  lemma ThresholdMonotone(now1: int, now2: int, days: int)
    requires now1 <= now2
    ensures CalculateDeletionThreshold(now1, days) <= CalculateDeletionThreshold(now2, days)
  {
  }

  /** The comparison is strict: a node modified exactly at the threshold stays. */
  lemma AtThresholdNotOlder(now: int, days: int)
    ensures !IsOlderThanThreshold(CalculateDeletionThreshold(now, days), now, days)
  {
  }

  /** A node that qualifies at one check still qualifies at every later check. */
  lemma OlderStaysOlder(mtime: int, now1: int, now2: int, days: int)
    requires now1 <= now2 && IsOlderThanThreshold(mtime, now1, days)
    ensures IsOlderThanThreshold(mtime, now2, days)
  {
  }
}
