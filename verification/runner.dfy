/**
 * One policy run as the sequence of remote calls it issues: create the new
 * snapshot, and only once that succeeds list the droplet's snapshots and delete
 * the stale ones. The remote service is abstracted by its answers.
 */
module Runner {
  import opened Decimal
  import opened Optional
  import opened Policy
  import opened DateName
  import opened Retention

  /** A remote call the run issues. */
  datatype Event =
    | CreateSnapshot(dropletId: string, name: string)
    | ListSnapshots(dropletId: string, page: int, perPage: int)
    | DeleteSnapshot(id: SnapshotId)

  /**
   * How the remote service answers during one run: whether the create call
   * succeeds, and the listed snapshots (`None` when the list call fails).
   */
  datatype ServiceAnswers = ServiceAnswers(createSucceeds: bool, listed: Option<seq<Snapshot>>)

  /** Extra entries requested beyond the keep-count when listing snapshots. */
  const ListMargin: int := 10

  /** The name `runPolicy` gives the snapshot it creates at instant `t`. */
  function NewSnapshotName(p: Policy, cal: LocalCalendar, t: int): (name: string)
    ensures |p.dropletName| + 1 <= |name|
    ensures name[..|p.dropletName| + 1] == p.dropletName + "-"
    ensures Decode(name[|p.dropletName| + 1..]) == Some(AllFields(cal(t))[..FieldCount(p.timeUnit)])
  {
    var dateStr := DateStr(cal, t, p.timeUnit);
    DateStrDecodes(cal, t, p.timeUnit);
    var name := p.dropletName + "-" + dateStr;
    assert name[|p.dropletName| + 1..] == dateStr;
    name
  }

  /**
   * New snapshot names are a bucket key: two create instants give the same name
   * exactly when their included calendar fields agree.
   */
  lemma NewSnapshotNameKey(p: Policy, cal: LocalCalendar, t1: int, t2: int)
    ensures NewSnapshotName(p, cal, t1) == NewSnapshotName(p, cal, t2)
        <==> SameBucket(cal(t1), cal(t2), p.timeUnit)
  {
    var n1, n2 := NewSnapshotName(p, cal, t1), NewSnapshotName(p, cal, t2);
    var cut := |p.dropletName| + 1;
    assert n1[cut..] == DateStr(cal, t1, p.timeUnit);
    assert n2[cut..] == DateStr(cal, t2, p.timeUnit);
    DateStrSameIffSameBucket(cal, t1, t2, p.timeUnit);
  }

  /** One delete call per selected id, issued in the order of `ids` (list order). */
  function DeleteCalls(ids: seq<SnapshotId>): (calls: seq<Event>)
    ensures |calls| == |ids|
    ensures forall j | 0 <= j < |ids| :: calls[j] == DeleteSnapshot(ids[j])
  {
    if |ids| == 0 then [] else [DeleteSnapshot(ids[0])] + DeleteCalls(ids[1..])
  }

  /**
   * The pruning step, started from the success continuation of the create:
   * stale names are computed for the pruning instant, the list call is issued,
   * and, if it answers, each selected id is deleted. When the stale-name loop
   * never ends (it grows its array until the process runs out of memory), the
   * list call is never reached and nothing is issued.
   */
  function PruneCalls(p: Policy, cal: LocalCalendar, pruneTime: int, listed: Option<seq<Snapshot>>): (calls: seq<Event>)
    ensures StaleLoopEnds(p) <==> 1 <= |calls|
    ensures forall i | 0 <= i < |calls| :: !calls[i].CreateSnapshot?
    ensures forall i | 0 <= i < |calls| && calls[i].DeleteSnapshot? ::
      1 <= i && calls[0] == ListSnapshots(p.dropletId, 1, p.snapshotKeepCount + ListMargin)
  {
    if !StaleLoopEnds(p) then []
    else
      var staleNames := StaleNameList(p, cal, pruneTime);
      [ListSnapshots(p.dropletId, 1, p.snapshotKeepCount + ListMargin)]
      + match listed
        case None => []
        case Some(snapshots) => DeleteCalls(SelectStale(snapshots, staleNames))
  }

  /**
   * A policy run. The create name uses the clock reading `createTime`; pruning
   * reads the clock again, `pruneTime`, when the create has succeeded.
   */
  function RunPolicy(p: Policy, cal: LocalCalendar, createTime: int, pruneTime: int, answers: ServiceAnswers): (calls: seq<Event>)
    ensures 1 <= |calls|
    ensures calls[0] == CreateSnapshot(p.dropletId, NewSnapshotName(p, cal, createTime))
    ensures !answers.createSucceeds ==> |calls| == 1
    ensures answers.createSucceeds && !StaleLoopEnds(p) ==> |calls| == 1
  {
    var name := NewSnapshotName(p, cal, createTime);
    [CreateSnapshot(p.dropletId, name)]
    + if answers.createSucceeds then PruneCalls(p, cal, pruneTime, answers.listed) else []
  }

  /** The manual entry point: a single create, with no pruning at all. */
  function TakeSnapshot(dropletId: string, name: string): (calls: seq<Event>)
    ensures forall e | e in calls :: e.CreateSnapshot? && e.dropletId == dropletId && e.name == name
    ensures |calls| == 1
  {
    [CreateSnapshot(dropletId, name)]
  }

  /**
   * The ordering every run obeys: exactly one create, issued first; at most one
   * list, issued second; every delete comes after that list.
   */
  predicate CreateThenPrune(calls: seq<Event>) {
    && 1 <= |calls|
    && calls[0].CreateSnapshot?
    && (forall i | 1 <= i < |calls| :: !calls[i].CreateSnapshot?)
    && (forall i | 0 <= i < |calls| && calls[i].ListSnapshots? :: i == 1)
    && (forall i | 0 <= i < |calls| && calls[i].DeleteSnapshot? :: 2 <= i && calls[1].ListSnapshots?)
  }

  /**
   * Every run is ordered create-then-prune. A failed create, or a stale-name
   * loop that never ends, leaves the run with no list and no delete. A
   * successful create whose loop ends issues the list call second, with the
   * keep-count plus the margin as page size.
   */
  lemma RunPolicyOrdering(p: Policy, cal: LocalCalendar, createTime: int, pruneTime: int, answers: ServiceAnswers)
    ensures CreateThenPrune(RunPolicy(p, cal, createTime, pruneTime, answers))
    ensures !answers.createSucceeds || !StaleLoopEnds(p) ==>
      forall e | e in RunPolicy(p, cal, createTime, pruneTime, answers) :: !e.ListSnapshots? && !e.DeleteSnapshot?
    ensures answers.createSucceeds && StaleLoopEnds(p) ==>
      RunPolicy(p, cal, createTime, pruneTime, answers)[1]
      == ListSnapshots(p.dropletId, 1, p.snapshotKeepCount + ListMargin)
  {
  }

  /**
   * A run deletes exactly the listed snapshots whose names are stale at the
   * pruning instant, in list order. It deletes nothing when the create or the
   * list fails, or when the stale-name loop never ends.
   */
  lemma RunPolicyDeletes(p: Policy, cal: LocalCalendar, createTime: int, pruneTime: int, answers: ServiceAnswers)
    ensures var calls := RunPolicy(p, cal, createTime, pruneTime, answers);
      if answers.createSucceeds && StaleLoopEnds(p) && answers.listed.Some? then
        calls[2..] == DeleteCalls(SelectStale(answers.listed.value, StaleNameList(p, cal, pruneTime)))
      else
        forall e | e in calls :: !e.DeleteSnapshot?
  {
  }

  /** A delete call for a selected id targets a listed snapshot with a stale name. */
  lemma DeleteCallSound(snapshots: seq<Snapshot>, staleNames: seq<string>, id: SnapshotId)
    requires DeleteSnapshot(id) in DeleteCalls(SelectStale(snapshots, staleNames))
    ensures exists s | s in snapshots :: s.id == id && s.name in staleNames
  {
  }

  /**
   * Every id a run deletes belongs to a listed snapshot whose name is one of
   * the stale names for the pruning instant.
   */
  lemma DeletedOnlyStale(p: Policy, cal: LocalCalendar, createTime: int, pruneTime: int, answers: ServiceAnswers, id: SnapshotId)
    requires DeleteSnapshot(id) in RunPolicy(p, cal, createTime, pruneTime, answers)
    ensures answers.createSucceeds && StaleLoopEnds(p) && answers.listed.Some?
    ensures exists s | s in answers.listed.value :: s.id == id && s.name in StaleNameList(p, cal, pruneTime)
  {
    var calls := RunPolicy(p, cal, createTime, pruneTime, answers);
    var i :| 0 <= i < |calls| && calls[i] == DeleteSnapshot(id);
    RunPolicyOrdering(p, cal, createTime, pruneTime, answers);
    assert answers.createSucceeds && StaleLoopEnds(p) && 2 <= i;
    RunPolicyDeletes(p, cal, createTime, pruneTime, answers);
    var staleNames := StaleNameList(p, cal, pruneTime);
    var deletes := calls[2..];
    assert deletes[i - 2] == DeleteSnapshot(id);
    assert deletes == DeleteCalls(SelectStale(answers.listed.value, staleNames));
    DeleteCallSound(answers.listed.value, staleNames, id);
  }

  /** The create name and the stale-name loop's name for the same instant coincide. */
  lemma NamesAgree(p: Policy, cal: LocalCalendar, t: int)
    ensures NewSnapshotName(p, cal, t) == StaleName(p, cal, t)
  {
  }

  /**
   * The names agree as a join key: a snapshot created at `t` is recognised as
   * stale by every run whose pruning instant is `t` plus the window plus `k`
   * time units, for `k` from 0 to three times the keep-count.
   */
  lemma CreatedNameStaleLater(p: Policy, cal: LocalCalendar, t: int, k: nat)
    requires p.timeUnit > 0 && p.snapshotKeepCount >= 0
    requires k <= 3 * p.snapshotKeepCount
    ensures NewSnapshotName(p, cal, t) in StaleNameList(p, cal, t + p.Window() + k * p.timeUnit)
  {
    var pruneTime := t + p.Window() + k * p.timeUnit;
    var instants := StaleInstants(p, pruneTime);
    var names := StaleNameList(p, cal, pruneTime);
    assert |instants| == StaleCount(p);
    assert instants[k] == pruneTime - p.Window() - k * p.timeUnit;
    assert instants[k] == t;
    assert names[k] == StaleName(p, cal, instants[k]);
    NamesAgree(p, cal, t);
  }
}
