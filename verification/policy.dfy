/** Time-unit constants (milliseconds) and the retention policy record. */
module Policy {
  import opened Optional

  const MINUTE: int := 60 * 1000
  const HOUR: int := 60 * MINUTE
  const DAY: int := 24 * HOUR

  /** The keep-count used when the caller passes none. */
  const DefaultKeepCount: int := 7

  /**
   * A retention policy: the droplet to snapshot, its name (the prefix of every
   * snapshot name), how many time units of snapshots to keep, and the time unit.
   * Counts and units are mathematical integers; nothing is range-checked.
   */
  datatype Policy = Policy(
    dropletName: string,
    dropletId: string,
    snapshotKeepCount: int,
    timeUnit: int)
  {
    /** The retention window: the span of time whose snapshots are kept. */
    function Window(): int {
      timeUnit * snapshotKeepCount
    }
  }

  /** The thresholds are strictly ordered: a second-level unit < minute < hour < day. */
  lemma UnitsOrdered()
    ensures MINUTE == 60000 && HOUR == 60 * MINUTE && DAY == 24 * HOUR
    ensures 0 < MINUTE < HOUR < DAY
  {
  }

  /**
   * Builds a policy; an absent (`undefined`) keep-count or time unit takes its
   * default, a present one is kept as given.
   */
  function CreatePolicy(
    dropletName: string,
    dropletId: string,
    snapshotKeepCount: Option<int>,
    timeUnit: Option<int>): (p: Policy)
    ensures p.dropletName == dropletName && p.dropletId == dropletId
    ensures snapshotKeepCount.Some? ==> p.snapshotKeepCount == snapshotKeepCount.value
    ensures snapshotKeepCount.None? ==> p.snapshotKeepCount == 7
    ensures timeUnit.Some? ==> p.timeUnit == timeUnit.value
    ensures timeUnit.None? ==> p.timeUnit == 86400000
  {
    var keepCount := if snapshotKeepCount.Some? then snapshotKeepCount.value else DefaultKeepCount;
    var unit := if timeUnit.Some? then timeUnit.value else DAY;
    Policy(dropletName, dropletId, keepCount, unit)
  }
}
