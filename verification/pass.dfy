/**
  One recount pass over the vault: the day test, the empty-vault short-circuit,
  the per-file decisions, and the update of the persisted state.

  The host is abstracted away: `now` is `Date.now()` at the start of the pass,
  `files` is what `vault.getFiles()` returned, `isSameDay` is the calendar-day
  comparison, `read` gives a file's content by path and `clock(i)` is the time
  at which the i-th file is measured. Whether the state is written back is the
  `saved` flag of the result.
 */
module RecountPass {
  import opened Records
  import opened CjkCounter
  import opened Measure
  import opened Categorize

  /** The sum of the counts of `statuses`, accumulated left to right. */
  function Sum(statuses: seq<FileStatus>): (total: int)
    ensures (forall i :: 0 <= i < |statuses| ==> statuses[i].count >= 0) ==> total >= 0
    decreases |statuses|
  {
    if |statuses| == 0 then 0
    else
      var last := |statuses| - 1;
      assert forall i :: 0 <= i < last ==> statuses[..last][i] == statuses[i];
      Sum(statuses[..last]) + statuses[last].count
  }

  /** The `reduce` of `calculateTotalCount`: fold the counts into a running sum. */
  method CalculateTotalCount(statuses: seq<FileStatus>) returns (total: int)
    ensures total == Sum(statuses)
  {
    total := 0;
    var i := 0;
    while i < |statuses|
      invariant 0 <= i <= |statuses|
      invariant total == Sum(statuses[..i])
    {
      assert statuses[..i + 1][..i] == statuses[..i];
      total := total + statuses[i].count;
      i := i + 1;
    }
    assert statuses[..i] == statuses;
  }

  /** The total the files would have if every one were measured now: an
      independent description of a new-day total. */
  ghost function FreshTotal(files: seq<FileHandle>, read: string -> seq<int>): int
    decreases |files|
  {
    if |files| == 0 then 0
    else FreshTotal(files[..|files| - 1], read) + |CjkPositions(read(files[|files| - 1].path))|
  }

  /** Install the pass's statuses, recompute the total, and on a new day make
      that total the day's baseline. */
  function UpdateSettings(settings: Data, newFiles: seq<FileStatus>, sameDay: bool): (s: Data)
    ensures s.files == newFiles
    ensures s.count == Sum(newFiles)
    ensures sameDay ==> s.initCount == settings.initCount
    ensures !sameDay ==> s.initCount == Sum(newFiles)
    ensures s.initTime == settings.initTime
  {
    var updated := settings.(files := newFiles, count := Sum(newFiles));
    if sameDay then updated else updated.(initCount := updated.count)
  }

  /** The state after a pass, whether it was written back, and how many file
      contents the pass read. */
  datatype PassResult = PassResult(settings: Data, saved: bool, contentReads: nat)

  /** One pass, as `processFiles` runs it. */
  function ProcessFiles(settings: Data, now: int, files: seq<FileHandle>, isSameDay: (int, int) -> bool,
                        read: string -> seq<int>, clock: nat -> int): (r: PassResult)
    // The day test moves the baseline time before anything else, even on an empty vault.
    ensures r.settings.initTime == (if isSameDay(now, settings.initTime) then settings.initTime else now)
    // An empty vault short-circuits: nothing else changes and nothing is saved.
    ensures |files| == 0 ==>
      && !r.saved && r.contentReads == 0
      && r.settings.files == settings.files
      && r.settings.count == settings.count
      && r.settings.initCount == settings.initCount
    // Otherwise: one status per live file, in order, and the total is their sum.
    ensures |files| > 0 ==>
      && r.saved
      && |r.settings.files| == |files|
      && (forall i :: 0 <= i < |files| ==> r.settings.files[i].name == files[i].path)
      && r.settings.count == Sum(r.settings.files)
    // Every status is a cached one that is not stale, or a fresh measurement.
    ensures |files| > 0 ==> forall i :: 0 <= i < |files| ==>
      || (r.settings.files[i] in settings.files && !IsFileModified(files[i], r.settings.files[i]))
      || r.settings.files[i] == CreateFileStatus(files[i], read(files[i].path), clock(i))
    // The baseline moves only on a new day, and then every file is read.
    ensures |files| > 0 && isSameDay(now, settings.initTime) ==> r.settings.initCount == settings.initCount
    ensures |files| > 0 && !isSameDay(now, settings.initTime) ==>
      r.settings.initCount == r.settings.count && r.contentReads == |files|
  {
    var sameDay := isSameDay(now, settings.initTime);
    var current := if sameDay then settings else settings.(initTime := now);
    if |files| == 0 then
      PassResult(current, false, 0)
    else
      var hs := CategorizeFiles(files, current.files, sameDay, read, clock);
      PassResult(UpdateSettings(current, StatusesOf(hs), sameDay), true, ReadCount(hs))
  }

  /** A pass over a prefix of the files pushes a prefix of the statuses. */
  lemma CategorizePrefix(files: seq<FileHandle>, prior: seq<FileStatus>, sameDay: bool,
                         read: string -> seq<int>, clock: nat -> int, n: nat)
    requires n <= |files|
    ensures StatusesOf(CategorizeFiles(files, prior, sameDay, read, clock))[..n]
         == StatusesOf(CategorizeFiles(files[..n], prior, sameDay, read, clock))
  {
    var whole := StatusesOf(CategorizeFiles(files, prior, sameDay, read, clock));
    var part := StatusesOf(CategorizeFiles(files[..n], prior, sameDay, read, clock));
    forall i | 0 <= i < n
      ensures whole[i] == part[i]
    {
      assert files[..n][i] == files[i];
    }
  }

  /** On a new day the total is what measuring every live file gives. */
  lemma {:induction false} NewDayTotalIsFresh(files: seq<FileHandle>, prior: seq<FileStatus>,
                                              read: string -> seq<int>, clock: nat -> int)
    ensures Sum(StatusesOf(CategorizeFiles(files, prior, false, read, clock))) == FreshTotal(files, read)
    decreases |files|
  {
    if |files| > 0 {
      var last := |files| - 1;
      var statuses := StatusesOf(CategorizeFiles(files, prior, false, read, clock));
      CategorizePrefix(files, prior, false, read, clock, last);
      NewDayTotalIsFresh(files[..last], prior, read, clock);
      assert Sum(statuses[..last]) == FreshTotal(files[..last], read);
      assert statuses[last].count == |CjkPositions(read(files[last].path))|;
    }
  }

  /** A day rollover on a non-empty vault starts a new day at `now` whose
      baseline is the freshly measured total of the live files. */
  lemma RolloverResetsBaseline(settings: Data, now: int, files: seq<FileHandle>, isSameDay: (int, int) -> bool,
                               read: string -> seq<int>, clock: nat -> int)
    requires |files| > 0
    requires !isSameDay(now, settings.initTime)
    ensures var r := ProcessFiles(settings, now, files, isSameDay, read, clock);
      && r.settings.initTime == now
      && r.settings.initCount == r.settings.count == FreshTotal(files, read)
      && r.contentReads == |files|
  {
    NewDayTotalIsFresh(files, settings.files, read, clock);
  }

  /** A second pass on the same day over the same, unchanged files leaves the
      state exactly as the first pass left it and reads no content, provided
      the first pass measured each file no earlier than its last modification. */
  lemma PassIsIdempotent(settings: Data, files: seq<FileHandle>, isSameDay: (int, int) -> bool,
                         now1: int, read1: string -> seq<int>, clock1: nat -> int,
                         now2: int, read2: string -> seq<int>, clock2: nat -> int)
    requires |files| > 0
    requires DistinctPaths(files)
    requires forall i: nat :: i < |files| ==> files[i].mtime <= clock1(i)
    // The second pass falls on the day the first pass left as the baseline day.
    requires isSameDay(now2, if isSameDay(now1, settings.initTime) then settings.initTime else now1)
    ensures var first := ProcessFiles(settings, now1, files, isSameDay, read1, clock1);
      var second := ProcessFiles(first.settings, now2, files, isSameDay, read2, clock2);
      second.settings == first.settings && second.contentReads == 0 && second.saved
  {
    var sameDay := isSameDay(now1, settings.initTime);
    var current := if sameDay then settings else settings.(initTime := now1);
    SameDayRepassReusesAll(files, current.files, sameDay, read1, clock1, read2, clock2);
  }

  /** A name that is not the path of a live file (a deleted or renamed file)
      does not survive a non-empty pass, so its count leaves the total. */
  lemma DeletedFilesDropOut(settings: Data, now: int, files: seq<FileHandle>, isSameDay: (int, int) -> bool,
                            read: string -> seq<int>, clock: nat -> int, name: string)
    requires |files| > 0
    requires !IsLivePath(files, name)
    ensures var r := ProcessFiles(settings, now, files, isSameDay, read, clock);
      forall k :: 0 <= k < |r.settings.files| ==> r.settings.files[k].name != name
  {
    var r := ProcessFiles(settings, now, files, isSameDay, read, clock);
    forall k | 0 <= k < |r.settings.files|
      ensures r.settings.files[k].name != name
    {
      assert r.settings.files[k].name == files[k].path;
    }
  }

  /** As written, a day rollover seen while the vault is empty moves the
      baseline time without moving the baseline count; a later non-empty pass
      that same day then keeps the earlier day's baseline count. */
  lemma EmptyRolloverKeepsOldBaseline(settings: Data, isSameDay: (int, int) -> bool,
                                      now1: int, read1: string -> seq<int>, clock1: nat -> int,
                                      now2: int, files: seq<FileHandle>, read2: string -> seq<int>, clock2: nat -> int)
    requires !isSameDay(now1, settings.initTime)
    requires isSameDay(now2, now1)
    requires |files| > 0
    ensures var first := ProcessFiles(settings, now1, [], isSameDay, read1, clock1);
      var second := ProcessFiles(first.settings, now2, files, isSameDay, read2, clock2);
      && !first.saved && first.settings.initTime == now1
      && second.settings.initTime == now1
      && second.settings.initCount == settings.initCount
  {
  }
}
