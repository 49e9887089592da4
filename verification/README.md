# Snapshot retention engine of digitalocean-backups, in Dafny

This project models the retention core of `src/index.js`. One policy run
creates a snapshot of a droplet named after the current time bucket. Once that
create succeeds, the run lists the droplet's snapshots and deletes those whose
names fall in a bounded band of buckets just behind the retention window.

The model has four parts:

- **Bucket namer** (`DateName`, built on `Decimal`). `getDateStr` turns an
  instant into a `-`-joined string of unpadded decimals: year, month + 1, day of
  month, and then hours + 1, minutes + 1 and seconds + 1 for units finer than a
  day, an hour and a minute. Local-time conversion is a function parameter
  `LocalCalendar` (epoch milliseconds to calendar fields) and is not
  interpreted. Decimal rendering and the join are spelled out. Splitting on `-`
  and parsing each piece is proved to be their inverse.
- **Stale-name calculator** (`Retention.ComputeStaleNames`). This is the `for`
  loop as written: `d` steps down from `dateMs - W` to `dateMs - 4W` inclusive,
  where `W = timeUnit * snapshotKeepCount`. It is proved equal to a closed form,
  `StaleInstants`, which visits `dateMs - W - k*timeUnit` for `k = 0..3K`.
- **Stale-snapshot selector** (`Retention.SelectStale`). This is the
  filter-then-map over the listed `{id, name}` records.
- **Policy run** (`Runner.RunPolicy`). This is the sequence of remote calls one
  run issues. The remote service is reduced to its answers: whether the create
  succeeds, and the listed snapshots or a list failure. The two clock readings
  are inputs. One names the new snapshot (line 96). The other, taken when
  `deleteStaleSnapshotsBy` is called without a date (line 55), fixes the stale
  names.

Milliseconds, keep-counts and time units are mathematical integers.

Points where the code is easy to misread:

- The loop's bound is inclusive, so it visits 3K + 1 instants, not 3K. The
  comment at line 62 says "2 *", but the loop goes back four windows.
- Hours, minutes and seconds are emitted shifted by one. The day of month is
  not shifted.
- The stale names form an ordered array and may repeat.
- `createPolicy` checks nothing. A zero or negative keep-count or time unit
  passes through unchanged, and the loop then behaves in three ways. It ends
  with no names for a negative unit and a positive keep-count. It never ends
  for a zero unit, or for a negative unit with a keep-count of zero or less:
  each pass pushes another name, so the array grows until the process runs out
  of memory, and the run never reaches its list call. The model has unbounded
  memory and treats this as a loop that never ends. `Retention.StaleLoopEnds` names the
  cases where it ends.

## Model

| member | source | states |
|---|---|---|
| Policy.UnitsOrdered | src/index.js:15-17 | `MINUTE` is 60000 ms, `HOUR` is 60 minutes, `DAY` is 24 hours, and the three thresholds are strictly ordered |
| Policy.CreatePolicy | src/index.js:19-29 | the policy keeps the droplet name and id; a given keep-count or unit is kept as is; an absent one defaults to 7 and to one day (86400000 ms) |
| Decimal.Render | src/index.js:50 | a number renders as a non-empty string of decimal digits with no leading zero |
| Decimal.ParseRender | src/index.js:50 | parsing the rendered digits gives back the number |
| Decimal.RenderInjective | src/index.js:50 | two naturals render the same exactly when they are equal |
| Decimal.Join | src/index.js:50 | the join is empty exactly when there are no fields |
| Decimal.DecodeJoin | src/index.js:50 | splitting a non-empty join on `-` and parsing each piece gives back exactly the joined fields |
| Decimal.JoinInjective | src/index.js:50 | two field lists join to the same string exactly when they are equal |
| DateName.DatePieces | src/index.js:40-49 | the pieces are the leading `FieldCount` entries of year, month+1, day, hours+1, minutes+1, seconds+1, in that order |
| DateName.FieldCountByUnit | src/index.js:41-49 | 3 fields for a unit of a day or more, 4 from an hour up to a day, 5 from a minute up to an hour, 6 below a minute; a coarser unit never has more fields |
| DateName.DateStr | src/index.js:39-51 | `getDateStr`: the join of the pieces; it has no ensures of its own, and DateStrDecodes and DateStrSameIffSameBucket state its meaning |
| DateName.DateStrDecodes | src/index.js:39-51 | the bucket string has `FieldCount` pieces and decodes to exactly the included calendar fields |
| DateName.DateStrSameIffSameBucket | src/index.js:39-51 | two instants get the same bucket string exactly when every included calendar field agrees |
| DateName.SameNameAtCoarserUnit | src/index.js:41-49 | instants that share a name at a finer unit share it at every coarser unit |
| Retention.StaleLoopEnds | src/index.js:63 | the cases in which the loop exits: a positive unit, or a negative unit with K > 0; it has no ensures of its own, and NegativeUnitGuardFailsAtOnce and NonEndingGuardAlwaysHolds state why it is exactly these cases |
| Retention.StaleName | src/index.js:64 | the name pushed for one instant: the droplet name, a `-`, then the bucket string; it has no ensures of its own, and NamesAgree and StaleNamesPrefixed state its meaning |
| Retention.StaleNameList | src/index.js:59-65 | for a positive unit the closed form lists 3K+1 names when K ≥ 0 and none when K < 0 (for a positive unit a negative keep-count makes the window negative, so the guard fails at once); for a negative unit with K > 0 it lists none |
| Retention.GuardAtStep | src/index.js:63 | for a positive unit, the loop guard holds at step n exactly when n ≤ 3K |
| Retention.ComputeStaleNames | src/index.js:59-65 | wherever the loop ends (a positive unit, or a negative unit with K > 0) it terminates and pushes the closed form: for a positive unit and K ≥ 0, the prefixed name of each instant `dateMs - W - k*T` for k = 0..3K, in order; otherwise nothing |
| Retention.NegativeUnitGuardFailsAtOnce | src/index.js:63 | with a negative unit and a positive keep-count the guard fails for the first `d`, so nothing is pushed |
| Retention.NonEndingGuardAlwaysHolds | src/index.js:63 | with a zero unit, or a negative unit and K ≤ 0, the guard holds after every number of steps, so the loop never ends |
| Retention.StaleInstantsWindow | src/index.js:63 | for a positive unit and K ≥ 0, the 3K+1 instants strictly decrease from `dateMs - W` to `dateMs - 4W`, lie in that range, and all precede `dateMs` when K ≥ 1 |
| Retention.StaleNamesPrefixed | src/index.js:64 | every stale name begins with the droplet name followed by `-` |
| Retention.SelectStale | src/index.js:68-77 | the result is no longer than the list; every selected id belongs to a listed snapshot with a stale name; every listed snapshot with a stale name has its id selected |
| Retention.MatchingPositionsExact | src/index.js:70-76 | the filter keeps exactly the positions whose name is in the stale list, in increasing order |
| Retention.SelectStaleIsOrderedFilter | src/index.js:68-77 | the selection is exactly the ids at the kept positions, in list order |
| Retention.SelectedIffStale | src/index.js:70-77 | when listed ids are distinct, a snapshot is selected exactly when its name is stale |
| Runner.NewSnapshotName | src/index.js:96-97 | the new snapshot's name starts with the droplet name and a `-`, and the rest decodes to exactly the included calendar fields of the create instant |
| Runner.NewSnapshotNameKey | src/index.js:96-97 | two create instants give the same snapshot name exactly when their included calendar fields agree |
| Runner.NamesAgree | src/index.js:96-97 | the create name equals the stale-name loop's name for the same instant (line 64) |
| Runner.CreatedNameStaleLater | src/index.js:63-64 | for a positive unit and K ≥ 0, a snapshot created at t is found stale by every run whose prune instant is t + W + kT, for k = 0..3K |
| Runner.DeleteCalls | src/index.js:80-82 | one delete call per selected id, in list order |
| Runner.PruneCalls | src/index.js:53-84 | the calls of `deleteStaleSnapshotsBy`: at least one call exactly when the stale-name loop ends; never a create; every delete comes after a list call with page size K + `ListMargin` (10) as its first call; RunPolicyDeletes states which deletes |
| Runner.RunPolicy | src/index.js:94-108 | the first call is the create with the bucket name of the create instant; a failed create issues nothing else, and neither does a successful one whose stale-name loop never ends |
| Runner.TakeSnapshot | src/index.js:135-139 | the manual entry point issues a single create of the given droplet with the given name, and no pruning |
| Runner.RunPolicyOrdering | src/index.js:94-108 | one create, first; at most one list, second, with page size keep-count + `ListMargin` (10); every delete after it; no list or delete when the create fails or the stale-name loop never ends |
| Runner.RunPolicyDeletes | src/index.js:67-84 | after a successful create, an ending stale-name loop and a successful list, the deletes are exactly the selected stale ids in list order; otherwise there are none |
| Runner.DeleteCallSound | src/index.js:77-82 | a delete call for a selected id targets a listed snapshot with a stale name |
| Runner.DeletedOnlyStale | src/index.js:100-104 | every id a run deletes belongs to a listed snapshot whose name is stale at the prune instant, and only a run whose create succeeded, whose stale-name loop ended and whose list answered deletes anything |

## Left out

- `dist/index.js` is a stale compiled copy of `src/index.js` that differs from it. It is not part of this model.
- Local-time conversion (the `Date` getters, time zones, daylight saving) is the uninterpreted `LocalCalendar` parameter. The model therefore proves nothing about which instants share a wall-clock bucket. In particular it cannot show that a new snapshot is never pruned by its own run.
- Calendar fields are naturals. A negative `getFullYear()` (a year before 1 BCE) and the ranges of the getters (month 0-11 and so on) are not modelled; the join's injectivity does not need them.
- JavaScript `Number` semantics (floats, NaN from `parseInt`, precision loss above 2^53) are not modelled. Milliseconds and counts are unbounded integers.
- ComputeStaleNames: requires that the loop ends (`StaleLoopEnds`). For the other units `NonEndingGuardAlwaysHolds` shows the guard never fails, and a method that never returns has no result to state.
- RunPolicy: when the stale-name loop never ends, the source grows its array until the process runs out of memory. The model, with unbounded memory, treats this as a loop that never ends. The run is modelled by the calls it issues before that, which is only the create. The out-of-memory end is not a separate outcome, so its trace looks like the trace of a failed create.
- The remote DigitalOcean client (create, list, delete) is reduced to the calls issued and the answers given. Transport, authentication and paging beyond the first page are not modelled.
- Delete fan-out (lines 80-90) is modelled as calls issued in list order. Promise settlement, the unawaited delete promises, per-delete failures and the swallowed `catch` are concurrency and I/O, and are not modelled.
- Console logging is not modelled.
- Argument parsing and token handling (`getCmdArg`, `parseOrThrowField`, `runPolicyCmd`, `takeSnapshotCmd`, the `Backups` token check) are command-line glue and are not modelled.
