/**
 * The retention calculator: which bucket names are stale at a reference
 * instant, and which listed snapshots carry one of those names.
 */
module Retention {
  import opened Policy
  import opened DateName

  /** An identifier the remote service assigns to a snapshot; opaque here. */
  type SnapshotId = string

  /** A snapshot as the remote list returns it. */
  datatype Snapshot = Snapshot(id: SnapshotId, name: string)

  /** The name the stale-name loop pushes for instant `t`. */
  function StaleName(p: Policy, cal: LocalCalendar, t: int): string {
    p.dropletName + "-" + DateStr(cal, t, p.timeUnit)
  }

  /**
   * Whether the stale-name loop ends. With a positive unit `d` falls until the
   * guard fails. With a negative unit and a positive keep-count the window is
   * negative and the guard fails at once. Otherwise (a zero unit, or a negative
   * unit with a keep-count of zero or less) the guard holds on every step.
   */
  predicate StaleLoopEnds(p: Policy) {
    p.timeUnit > 0 || (p.timeUnit < 0 && p.snapshotKeepCount > 0)
  }

  /** How many instants the stale-name loop visits, when it ends. */
  function StaleCount(p: Policy): nat {
    if p.timeUnit > 0 && p.snapshotKeepCount >= 0 then 3 * p.snapshotKeepCount + 1 else 0
  }

  /**
   * Closed form of the instants the loop visits: one window back from the
   * reference instant, then one time unit further back per step.
   */
  function StaleInstants(p: Policy, dateMs: int): seq<int> {
    seq(StaleCount(p), k => dateMs - p.Window() - k * p.timeUnit)
  }

  /**
   * The stale names, one per visited instant, in visiting order: 3K+1 of them
   * for a positive unit and a keep-count K of at least zero, and none for a
   * positive unit with a negative keep-count or a negative unit with a positive
   * one. It stands for the loop's result only where the loop ends.
   */
  function StaleNameList(p: Policy, cal: LocalCalendar, dateMs: int): (names: seq<string>)
    ensures p.timeUnit > 0 && p.snapshotKeepCount >= 0 ==> |names| == 3 * p.snapshotKeepCount + 1
    ensures p.timeUnit > 0 && p.snapshotKeepCount < 0 ==> names == []
    ensures p.timeUnit < 0 && p.snapshotKeepCount > 0 ==> names == []
  {
    var instants := StaleInstants(p, dateMs);
    seq(|instants|, k requires 0 <= k < |instants| => StaleName(p, cal, instants[k]))
  }

  /**
   * The loop guard at step `n`: the instant `n` units past the window edge is
   * no earlier than four windows back exactly when `n` is at most three times
   * the keep-count.
   */
  lemma GuardAtStep(p: Policy, dateMs: int, n: nat)
    requires p.timeUnit > 0
    ensures dateMs - p.Window() - n * p.timeUnit >= dateMs - p.Window() * 4
        <==> n <= 3 * p.snapshotKeepCount
  {
  }

  /**
   * A negative unit with a positive keep-count makes the window negative, so
   * the guard already fails for the first `d`: the loop pushes nothing.
   */
  lemma NegativeUnitGuardFailsAtOnce(p: Policy, dateMs: int)
    requires p.timeUnit < 0 && p.snapshotKeepCount > 0
    ensures !(dateMs - p.Window() >= dateMs - p.Window() * 4)
  {
  }

  /** Where the loop ends, its guard can hold at the first `d` only for a positive unit. */
  lemma FirstGuardNeedsPositiveUnit(p: Policy, dateMs: int)
    requires StaleLoopEnds(p)
    requires dateMs - p.Window() >= dateMs - p.Window() * 4
    ensures p.timeUnit > 0
  {
  }

  /**
   * When the loop does not end by `StaleLoopEnds`, the guard holds for `d`
   * after every number of steps, so the loop never exits.
   */
  lemma NonEndingGuardAlwaysHolds(p: Policy, dateMs: int, n: nat)
    requires !StaleLoopEnds(p)
    ensures dateMs - p.Window() - n * p.timeUnit >= dateMs - p.Window() * 4
  {
  }

  /** Entry `n` of the stale-name list is the name of the instant `n` units past the window edge. */
  lemma StaleNameAt(p: Policy, cal: LocalCalendar, dateMs: int, n: nat)
    requires n < StaleCount(p)
    ensures StaleNameList(p, cal, dateMs)[..n + 1]
         == StaleNameList(p, cal, dateMs)[..n] + [StaleName(p, cal, dateMs - p.Window() - n * p.timeUnit)]
  {
  }

  /** One more step back by `t` from `start - n*t`. */
  lemma StepBack(start: int, n: int, t: int)
    ensures start - n * t - t == start - (n + 1) * t
  {
  }

  /**
   * The stale-name loop as written: `d` starts one window before the reference
   * instant and steps back by one time unit while it is no earlier than four
   * windows before it. Wherever the loop ends, it produces the closed form.
   */
  method ComputeStaleNames(p: Policy, cal: LocalCalendar, dateMs: int) returns (staleNames: seq<string>)
    requires StaleLoopEnds(p)
    ensures |staleNames| == StaleCount(p)
    ensures staleNames == StaleNameList(p, cal, dateMs)
  {
    var w := p.timeUnit * p.snapshotKeepCount;
    staleNames := [];
    var d := dateMs - w;
    while d >= dateMs - w * 4
      invariant d == dateMs - w - |staleNames| * p.timeUnit
      invariant p.timeUnit < 0 ==> |staleNames| == 0
      invariant |staleNames| <= StaleCount(p)
      invariant staleNames == StaleNameList(p, cal, dateMs)[..|staleNames|]
      decreases d - (dateMs - w * 4)
    {
      var n := |staleNames|;
      if n == 0 {
        FirstGuardNeedsPositiveUnit(p, dateMs);
      }
      GuardAtStep(p, dateMs, n);
      StaleNameAt(p, cal, dateMs, n);
      staleNames := staleNames + [StaleName(p, cal, d)];
      d := d - p.timeUnit;
      StepBack(dateMs - w, n, p.timeUnit);
    }
    if p.timeUnit > 0 {
      GuardAtStep(p, dateMs, |staleNames|);
    }
  }

  /**
   * The visited instants run strictly downwards from one window before the
   * reference instant to four windows before it, both ends included; with a
   * positive keep-count none of them is the reference instant itself.
   */
  lemma StaleInstantsWindow(p: Policy, dateMs: int)
    requires p.timeUnit > 0 && p.snapshotKeepCount >= 0
    ensures |StaleInstants(p, dateMs)| == 3 * p.snapshotKeepCount + 1
    ensures StaleInstants(p, dateMs)[0] == dateMs - p.Window()
    ensures StaleInstants(p, dateMs)[3 * p.snapshotKeepCount] == dateMs - 4 * p.Window()
    ensures forall i, j | 0 <= i < j < |StaleInstants(p, dateMs)| ::
      StaleInstants(p, dateMs)[j] < StaleInstants(p, dateMs)[i]
    ensures forall i | 0 <= i < |StaleInstants(p, dateMs)| ::
      dateMs - 4 * p.Window() <= StaleInstants(p, dateMs)[i] <= dateMs - p.Window()
    ensures p.snapshotKeepCount >= 1 ==>
      forall i | 0 <= i < |StaleInstants(p, dateMs)| :: StaleInstants(p, dateMs)[i] < dateMs
  {
  }

  /** Every stale name carries the droplet's name and a dash as its prefix. */
  lemma StaleNamesPrefixed(p: Policy, cal: LocalCalendar, dateMs: int)
    ensures forall n | n in StaleNameList(p, cal, dateMs) ::
      |p.dropletName| + 1 <= |n| && n[..|p.dropletName| + 1] == p.dropletName + "-"
  {
  }

  /**
   * The ids of the listed snapshots whose name is one of the stale names, in
   * list order: the filter followed by the map to ids.
   */
  function SelectStale(snapshots: seq<Snapshot>, staleNames: seq<string>): (ids: seq<SnapshotId>)
    ensures |ids| <= |snapshots|
    ensures forall id | id in ids ::
      exists i | 0 <= i < |snapshots| :: snapshots[i].id == id && snapshots[i].name in staleNames
    ensures forall i | 0 <= i < |snapshots| && snapshots[i].name in staleNames ::
      snapshots[i].id in ids
  {
    if |snapshots| == 0 then []
    else
      var rest := SelectStale(snapshots[1..], staleNames);
      assert forall i | 1 <= i < |snapshots| :: snapshots[i] == snapshots[1..][i - 1];
      if snapshots[0].name in staleNames then [snapshots[0].id] + rest else rest
  }

  /** Positions, from `start` on, of the listed snapshots whose name is stale. */
  function MatchingPositions(snapshots: seq<Snapshot>, staleNames: seq<string>, start: nat): seq<nat>
    requires start <= |snapshots|
    decreases |snapshots| - start
  {
    if start == |snapshots| then []
    else if snapshots[start].name in staleNames then [start] + MatchingPositions(snapshots, staleNames, start + 1)
    else MatchingPositions(snapshots, staleNames, start + 1)
  }

  predicate StrictlyIncreasing(xs: seq<nat>) {
    forall i, j | 0 <= i < j < |xs| :: xs[i] < xs[j]
  }

  /** The matching positions from `start` on lie in `[start, |snapshots|)`. */
  lemma {:induction false} MatchingPositionsInRange(snapshots: seq<Snapshot>, staleNames: seq<string>, start: nat)
    requires start <= |snapshots|
    ensures forall j | 0 <= j < |MatchingPositions(snapshots, staleNames, start)| ::
      start <= MatchingPositions(snapshots, staleNames, start)[j] < |snapshots|
    decreases |snapshots| - start
  {
    if start < |snapshots| {
      MatchingPositionsInRange(snapshots, staleNames, start + 1);
    }
  }

  /**
   * The matching positions are increasing, and are exactly the positions from
   * `start` on whose name is stale.
   */
  lemma {:induction false} MatchingPositionsExact(snapshots: seq<Snapshot>, staleNames: seq<string>, start: nat)
    requires start <= |snapshots|
    ensures StrictlyIncreasing(MatchingPositions(snapshots, staleNames, start))
    ensures forall i | start <= i < |snapshots| ::
      i in MatchingPositions(snapshots, staleNames, start) <==> snapshots[i].name in staleNames
    decreases |snapshots| - start
  {
    if start < |snapshots| {
      var rest := MatchingPositions(snapshots, staleNames, start + 1);
      MatchingPositionsExact(snapshots, staleNames, start + 1);
      MatchingPositionsInRange(snapshots, staleNames, start + 1);
      assert start !in rest;
      if snapshots[start].name in staleNames {
        var pos := [start] + rest;
        assert pos == MatchingPositions(snapshots, staleNames, start);
        forall i, j | 0 <= i < j < |pos|
          ensures pos[i] < pos[j]
        {
          if i > 0 {
            assert pos[i] == rest[i - 1] && pos[j] == rest[j - 1];
          } else {
            assert pos[j] == rest[j - 1];
          }
        }
        assert forall i | start < i < |snapshots| :: i in pos <==> i in rest;
      }
    }
  }

  /** The ids of the snapshots at the given positions, in position order. */
  function IdsAt(snapshots: seq<Snapshot>, positions: seq<nat>): (ids: seq<SnapshotId>)
    requires forall j | 0 <= j < |positions| :: positions[j] < |snapshots|
    ensures |ids| == |positions|
    ensures forall j | 0 <= j < |positions| :: ids[j] == snapshots[positions[j]].id
  {
    if |positions| == 0 then [] else [snapshots[positions[0]].id] + IdsAt(snapshots, positions[1..])
  }

  /**
   * The selection is exactly the ids at the matching positions, in their
   * original order.
   */
  lemma {:induction false} SelectStaleIsOrderedFilter(snapshots: seq<Snapshot>, staleNames: seq<string>, start: nat)
    requires start <= |snapshots|
    ensures forall j | 0 <= j < |MatchingPositions(snapshots, staleNames, start)| ::
      MatchingPositions(snapshots, staleNames, start)[j] < |snapshots|
    ensures SelectStale(snapshots[start..], staleNames)
         == IdsAt(snapshots, MatchingPositions(snapshots, staleNames, start))
    decreases |snapshots| - start
  {
    MatchingPositionsInRange(snapshots, staleNames, start);
    if start < |snapshots| {
      SelectStaleIsOrderedFilter(snapshots, staleNames, start + 1);
      assert snapshots[start..][1..] == snapshots[start + 1..];
      var pos := MatchingPositions(snapshots, staleNames, start);
      if snapshots[start].name in staleNames {
        assert pos[1..] == MatchingPositions(snapshots, staleNames, start + 1);
      }
    }
  }

  /**
   * When the listed ids are distinct, a snapshot is selected exactly when its
   * name is stale; a snapshot with any other name is never selected.
   */
  lemma SelectedIffStale(snapshots: seq<Snapshot>, staleNames: seq<string>, i: nat)
    requires i < |snapshots|
    requires forall a, b | 0 <= a < b < |snapshots| :: snapshots[a].id != snapshots[b].id
    ensures snapshots[i].id in SelectStale(snapshots, staleNames) <==> snapshots[i].name in staleNames
  {
  }
}
