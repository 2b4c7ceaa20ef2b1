# Incremental recount engine of simple-word-count

simple-word-count is an Obsidian plugin that keeps a running count of CJK
Unified Ideographs (code points U+4E00 to U+9FA5) across the files of a vault.
It also keeps a daily baseline, so that it can report progress "since today
started". Whenever a note is modified, deleted or renamed, the plugin runs one
pass over every file in the vault:

- On the same calendar day as the last baseline, a file's cached status is
  reused unless it is stale. A status is stale when the file was modified after
  the status was measured, or when the file's size differs from the recorded
  size. A stale or missing status is replaced by a fresh measurement.
- On a new day, every file is measured again. The new total becomes the day's
  baseline (`initCount`), and `initTime` moves to now.
- The list of cached statuses is replaced wholesale by the statuses of the
  live files. The total is the sum of their counts.
- An empty vault short-circuits the pass before anything but `initTime` has
  changed, and nothing is saved.

This project models that engine as pure functions over immutable records.
The host is replaced by parameters:

- `now` is the pass's start time.
- `files` is the vault's file list.
- `isSameDay` is the calendar-day comparison.
- `read` gives a file's content, as code points, by path.
- `clock(i)` is the time at which the i-th file would be measured.

Each per-file decision records whether the file's content was read. This
makes cache hits visible.

Modules:

- `Records` (records.dfy): `FileHandle`, `FileStatus` and `Data`, plus the
  defaults used when nothing is saved.
- `CjkCounter` (counter.dfy): the ideograph count, as a specification and as
  the loop of `countChineseCharacters`.
- `Measure` (measure.dfy): the staleness test, a fresh measurement, and the
  lookup of a cached status by name. The lookup finds the first match, as
  `Array.find` does.
- `Categorize` (categorize.dfy): the same-day and new-day handlers and the
  per-pass loop.
- `RecountPass` (pass.dfy): the total, the state update and the pass driver.

## Model

| member | source | states |
|---|---|---|
| CjkCounter.CjkCount | main.ts:52-61 | the count never exceeds the number of code points, and it is zero exactly when no code point lies in U+4E00..U+9FA5 |
| CjkCounter.CountMatchesPositions | main.ts:54-59 | the count equals the number of positions whose code point lies in the inclusive range |
| CjkCounter.CountAppend | main.ts:54-59 | the count of concatenated text is the sum of the counts of its parts |
| CjkCounter.CountIsLengthIffAllCjk | main.ts:54-59 | the count equals the content length exactly when every code point is an ideograph |
| CjkCounter.CountChineseCharacters | main.ts:50-62 | the counting loop returns the specified count, that is, the number of in-range positions |
| CjkCounter.MixedTextCountsTwo | main.ts:54-58 | "a你好b" has two counted characters |
| Measure.CreateFileStatus | main.ts:116-124 | a measurement carries the file's path and current size, the measurement time, and the number of in-range code points of the content |
| Measure.MeasurementFreshIff | main.ts:126-131 | a status just measured is not stale against its file exactly when it was taken no earlier than the file's last modification |
| Measure.FindStatus | main.ts:99 | the lookup finds nothing exactly when no cached status carries the name; otherwise it returns the first status that carries it |
| Measure.FirstNamedUnique | main.ts:99 | the first position carrying a name is unique |
| Measure.FindUniquelyNamed | main.ts:99 | among uniquely named statuses, the lookup returns the status with that name |
| Categorize.HandleSameDayFile | main.ts:98-110 | the pushed status is named after the file; the content is not read exactly when the first cached status for the file exists and is not stale, and then that cached status is pushed; otherwise a fresh measurement is pushed |
| Categorize.HandleNewDayFile | main.ts:112-114 | every file is read, and its pushed status has the file's path, current size, measurement time and ideograph count |
| Categorize.CategorizeFiles | main.ts:81-96 | exactly one decision per input file, in input order, each the decision for that file in the pass's mode, and each named after its file's path |
| Categorize.CacheHitReadsNothing | main.ts:101-106 | on a cache hit the pushed status does not depend on the content or on the clock, and nothing is read |
| Categorize.StaleEntryRemeasured | main.ts:101-103 | on the same day, a file is measured again when its first cached status is stale: either the file was modified after the status's check time, or its size differs from the recorded size |
| Categorize.UnchangedFileReused | main.ts:101-106 | a cached status with the file's size, measured no earlier than the file's mtime, is pushed unchanged and the file is not read |
| Categorize.CheckTimeNeverDecreases | main.ts:98-124 | when the file is measured no earlier than its first cached status's check time, the pushed status's check time is at least that check time, whether the status was reused or measured again |
| Categorize.PushedStatusIsFresh | main.ts:98-124 | whichever way a status was pushed, it is not stale against its file when the file's measurement time is no earlier than its last modification |
| Categorize.NewDayMeasuresEveryFile | main.ts:87-92 | in new-day mode every file is read and gets a fresh measurement, whatever was cached |
| Categorize.SameDayRepassReusesAll | main.ts:98-110 | after a pass that measured each file no earlier than its mtime, a same-day pass over the same distinct paths reuses every status and reads no content |
| RecountPass.CalculateTotalCount | main.ts:142-144 | the reduce of `calculateTotalCount` returns the sum of the counts |
| RecountPass.UpdateSettings | main.ts:133-140 | the new list replaces the old, the total is the sum of its counts, the baseline count becomes the total only on a new day, and the baseline time is untouched |
| RecountPass.ProcessFiles | main.ts:64-79 | the baseline time moves to now exactly on a new day, even on an empty vault; an empty vault changes nothing else and is not saved; otherwise the pass is saved and holds one status per live file, in order and named by path, each either a non-stale cached status or a fresh measurement; the total is their sum; the baseline count is kept on the same day, and on a new day it equals the total and every file is read |
| RecountPass.NewDayTotalIsFresh | main.ts:87-92 | in new-day mode the total equals the sum of the ideograph counts of the live files' current contents |
| RecountPass.RolloverResetsBaseline | main.ts:64-79 | a rollover on a non-empty vault sets the baseline time to now, sets the baseline count to the new total, and bases that total on fresh reads of every live file |
| RecountPass.PassIsIdempotent | main.ts:64-79 | a second same-day pass over unchanged files leaves the state exactly as the first left it, and it reads no content |
| RecountPass.DeletedFilesDropOut | main.ts:133-135 | after a non-empty pass, no status carries the name of a file that is no longer in the vault |
| RecountPass.EmptyRolloverKeepsOldBaseline | main.ts:66-73 | a rollover seen on an empty vault moves the baseline time but not the baseline count, and the change is not saved; a later same-day pass then keeps the earlier day's baseline count |

## Left out

- Obsidian host APIs (`Plugin`, `TFile`, `vault.read`, `vault.getFiles`): they are I/O. Contents, the file list and the clock are parameters instead.
- Persistence (`loadData`, `saveData`) and the `Object.assign` merge with the defaults (main.ts:42-48): they are I/O. `Records.DefaultData` only records the default values. A pass returns the new state and a `saved` flag.
- Event registration and the `.md` extension filter (main.ts:27-40): callback plumbing that only decides when a pass runs.
- Overlapping asynchronous passes: an interleaving hazard of the host's event loop. Each pass is modelled as one sequential step.
- `isSameDay` (main.ts:146-154): JavaScript `Date` local-time calendar arithmetic. The comparison is an abstract predicate parameter.
- `Date.now()` during measurement: each file's measurement time is `clock(i)`, given by position in the pass. Nothing forces these times to increase, so a status's check time cannot decrease only when the clock is no earlier than the cached check time (`Categorize.CheckTimeNeverDecreases`).
- Content read failures: main.ts has no error path for them. A failing `vault.read` rejects the pass after main.ts:68-70 has already run, so on a new day `initTime` has moved in memory while `files`, `count` and `initCount` keep their old values and nothing is saved, as with an empty vault. The model's `read` is total, so this outcome is not modelled.
- JavaScript strings may hold lone surrogates. The model takes content as a sequence of integer code points, which covers them. Only the `"a你好b"` example goes through Dafny strings.
- Numbers are JavaScript doubles in main.ts. The model uses unbounded integers, so precision loss beyond 2^53 is not modelled.
- `RecountPass.ProcessFiles`: on a new day with an empty vault, main.ts:68-73 moves `initTime` in memory and returns without saving. `RecountPass.EmptyRolloverKeepsOldBaseline` shows that a later same-day pass keeps the previous day's `initCount`. This is not treated as a defect, because main.ts does not show which behaviour is intended.
