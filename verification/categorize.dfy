/**
  One pass's per-file decisions: reuse a cached status or measure the file
  again. Content reads are made visible through the `measured` flag of each
  decision; the host's `vault.read` becomes the `read` parameter (content by
  path) and `Date.now()` at the measurement of the i-th file becomes `clock(i)`.
 */
module Categorize {
  import opened Records
  import opened CjkCounter
  import opened Measure

  /** The status pushed for one file, and whether its content was read to get it. */
  datatype Handled = Handled(status: FileStatus, measured: bool)

  /** The cached status for `file` (the first one carrying its path) exists
      and is not stale. */
  ghost predicate CacheHit(file: FileHandle, prior: seq<FileStatus>)
  {
    exists i :: FirstNamed(prior, file.path, i) && !IsFileModified(file, prior[i])
  }

  /** Same-day handling: reuse the cached status when it is not stale,
      otherwise measure the file. */
  function HandleSameDayFile(file: FileHandle, prior: seq<FileStatus>, content: seq<int>, now: int): (h: Handled)
    ensures h.status.name == file.path
    ensures !h.measured <==> CacheHit(file, prior)
    ensures !h.measured ==>
      exists i :: FirstNamed(prior, file.path, i) && h.status == prior[i] && !IsFileModified(file, prior[i])
    ensures h.measured ==> h.status == CreateFileStatus(file, content, now)
  {
    match FindStatus(prior, file.path)
    case Some(existing) =>
      if IsFileModified(file, existing) then
        Handled(CreateFileStatus(file, content, now), true)
      else
        Handled(existing, false)
    case None =>
      Handled(CreateFileStatus(file, content, now), true)
  }

  /** New-day handling: always measure the file. */
  function HandleNewDayFile(file: FileHandle, content: seq<int>, now: int): (h: Handled)
    ensures h.measured
    ensures h.status.name == file.path && h.status.size == file.size && h.status.checkTime == now
    ensures h.status.count == |CjkPositions(content)|
  {
    Handled(CreateFileStatus(file, content, now), true)
  }

  /** The mode switch inside the loop of `categorizeFiles`. */
  function HandleFile(file: FileHandle, prior: seq<FileStatus>, sameDay: bool, content: seq<int>, now: int): Handled
  {
    if sameDay then HandleSameDayFile(file, prior, content, now)
    else HandleNewDayFile(file, content, now)
  }

  /** Handle every file in order, one decision per file. */
  function CategorizeFiles(files: seq<FileHandle>, prior: seq<FileStatus>, sameDay: bool,
                           read: string -> seq<int>, clock: nat -> int): (hs: seq<Handled>)
    ensures |hs| == |files|
    ensures forall i :: 0 <= i < |files| ==>
      hs[i] == HandleFile(files[i], prior, sameDay, read(files[i].path), clock(i))
    ensures forall i :: 0 <= i < |files| ==> hs[i].status.name == files[i].path
    decreases |files|
  {
    if |files| == 0 then []
    else
      var last := |files| - 1;
      assert forall i :: 0 <= i < last ==> files[..last][i] == files[i];
      CategorizeFiles(files[..last], prior, sameDay, read, clock)
        + [HandleFile(files[last], prior, sameDay, read(files[last].path), clock(last))]
  }

  /** The statuses a pass pushed, in order. */
  function StatusesOf(hs: seq<Handled>): seq<FileStatus>
  {
    seq(|hs|, i requires 0 <= i < |hs| => hs[i].status)
  }

  /** How many content reads a pass performed. */
  function ReadCount(hs: seq<Handled>): (n: nat)
    ensures n <= |hs|
    ensures n == 0 <==> forall i :: 0 <= i < |hs| ==> !hs[i].measured
    ensures n == |hs| <==> forall i :: 0 <= i < |hs| ==> hs[i].measured
    decreases |hs|
  {
    if |hs| == 0 then 0
    else
      var last := |hs| - 1;
      assert forall i :: 0 <= i < last ==> hs[..last][i] == hs[i];
      ReadCount(hs[..last]) + (if hs[last].measured then 1 else 0)
  }

  /** A cache hit neither reads the content nor consults the clock: the
      decision is the same whatever the content and the time. */
  lemma CacheHitReadsNothing(file: FileHandle, prior: seq<FileStatus>,
                             content1: seq<int>, now1: int, content2: seq<int>, now2: int)
    requires CacheHit(file, prior)
    ensures HandleSameDayFile(file, prior, content1, now1) == HandleSameDayFile(file, prior, content2, now2)
    ensures !HandleSameDayFile(file, prior, content1, now1).measured
  {
    var k :| FirstNamed(prior, file.path, k) && !IsFileModified(file, prior[k]);
    var r := FindStatus(prior, file.path);
    var j :| FirstNamed(prior, file.path, j) && prior[j] == r.value;
    FirstNamedUnique(prior, file.path, j, k);
  }

  /** A file whose first cached status is stale, because the file was modified
      after that status was measured or its size is no longer the recorded one,
      is measured again, even on the same day. */
  lemma StaleEntryRemeasured(file: FileHandle, prior: seq<FileStatus>, content: seq<int>, now: int, i: int)
    requires FirstNamed(prior, file.path, i)
    requires file.mtime > prior[i].checkTime || file.size != prior[i].size
    ensures HandleSameDayFile(file, prior, content, now) == Handled(CreateFileStatus(file, content, now), true)
  {
  }

  /** A file whose first cached status has the file's size and was measured no
      earlier than the file's last modification is not read again on the same
      day: that status is pushed unchanged. */
  lemma UnchangedFileReused(file: FileHandle, prior: seq<FileStatus>, content: seq<int>, now: int, i: int)
    requires FirstNamed(prior, file.path, i)
    requires prior[i].size == file.size && file.mtime <= prior[i].checkTime
    ensures HandleSameDayFile(file, prior, content, now) == Handled(prior[i], false)
  {
    var r := FindStatus(prior, file.path);
    var j :| FirstNamed(prior, file.path, j) && prior[j] == r.value;
    FirstNamedUnique(prior, file.path, i, j);
  }

  /** On a new day every file is measured afresh, whatever was cached. */
  lemma NewDayMeasuresEveryFile(files: seq<FileHandle>, prior: seq<FileStatus>,
                                read: string -> seq<int>, clock: nat -> int)
    ensures var hs := CategorizeFiles(files, prior, false, read, clock);
      ReadCount(hs) == |files| &&
      forall i :: 0 <= i < |files| ==> hs[i].status == CreateFileStatus(files[i], read(files[i].path), clock(i))
  {
  }

  /** A status a pass pushed is not stale against its file when any
      measurement of that file was taken no earlier than its last modification. */
  lemma PushedStatusIsFresh(files: seq<FileHandle>, prior: seq<FileStatus>, sameDay: bool,
                            read: string -> seq<int>, clock: nat -> int, i: nat)
    requires i < |files|
    requires files[i].mtime <= clock(i)
    ensures !IsFileModified(files[i], CategorizeFiles(files, prior, sameDay, read, clock)[i].status)
  {
    var h := CategorizeFiles(files, prior, sameDay, read, clock)[i];
    if h.measured {
      MeasurementFreshIff(files[i], read(files[i].path), clock(i));
    }
  }

  /** A file's check time never goes back: whenever the file is measured no
      earlier than its cached status was, the pushed status's check time is at
      least the cached one, whether the status was reused or measured again. */
  lemma CheckTimeNeverDecreases(files: seq<FileHandle>, prior: seq<FileStatus>, sameDay: bool,
                                read: string -> seq<int>, clock: nat -> int, i: nat, k: int)
    requires i < |files| && FirstNamed(prior, files[i].path, k)
    requires clock(i) >= prior[k].checkTime
    ensures CategorizeFiles(files, prior, sameDay, read, clock)[i].status.checkTime >= prior[k].checkTime
  {
    if sameDay && !IsFileModified(files[i], prior[k]) {
      UnchangedFileReused(files[i], prior, read(files[i].path), clock(i), k);
    }
  }

  /** Statuses named after distinct paths, in order, are uniquely named, and
      each is the first carrying its name. */
  lemma NamedAfterDistinctPaths(files: seq<FileHandle>, statuses: seq<FileStatus>, i: nat)
    requires DistinctPaths(files)
    requires |statuses| == |files|
    requires forall k :: 0 <= k < |files| ==> statuses[k].name == files[k].path
    requires i < |files|
    ensures FirstNamed(statuses, files[i].path, i)
  {
  }

  /** Decisions that each reuse the matching status push exactly those
      statuses and read nothing. */
  lemma AllReused(hs: seq<Handled>, statuses: seq<FileStatus>)
    requires |hs| == |statuses|
    requires forall i :: 0 <= i < |hs| ==> hs[i] == Handled(statuses[i], false)
    ensures StatusesOf(hs) == statuses && ReadCount(hs) == 0
  {
    assert StatusesOf(hs) == statuses;
  }

  /** One file of a same-day repass: its status from the first pass is reused. */
  lemma RepassReusesEntry(files: seq<FileHandle>, prior: seq<FileStatus>, sameDay: bool,
                          read1: string -> seq<int>, clock1: nat -> int,
                          read2: string -> seq<int>, clock2: nat -> int, i: nat)
    requires DistinctPaths(files)
    requires i < |files| && files[i].mtime <= clock1(i)
    ensures var first := StatusesOf(CategorizeFiles(files, prior, sameDay, read1, clock1));
      CategorizeFiles(files, first, true, read2, clock2)[i] == Handled(first[i], false)
  {
    var first := StatusesOf(CategorizeFiles(files, prior, sameDay, read1, clock1));
    PushedStatusIsFresh(files, prior, sameDay, read1, clock1, i);
    NamedAfterDistinctPaths(files, first, i);
    UnchangedFileReused(files[i], first, read2(files[i].path), clock2(i), i);
  }

  /** Idempotence: once a pass has measured every file no earlier than its last
      modification, a same-day pass over the same files reuses every status and
      reads nothing, whatever contents and clock it would have seen. */
  lemma SameDayRepassReusesAll(files: seq<FileHandle>, prior: seq<FileStatus>, sameDay: bool,
                               read1: string -> seq<int>, clock1: nat -> int,
                               read2: string -> seq<int>, clock2: nat -> int)
    requires DistinctPaths(files)
    requires forall i: nat :: i < |files| ==> files[i].mtime <= clock1(i)
    ensures var first := StatusesOf(CategorizeFiles(files, prior, sameDay, read1, clock1));
      var again := CategorizeFiles(files, first, true, read2, clock2);
      StatusesOf(again) == first && ReadCount(again) == 0
  {
    var first := StatusesOf(CategorizeFiles(files, prior, sameDay, read1, clock1));
    var again := CategorizeFiles(files, first, true, read2, clock2);
    forall i: nat | i < |files|
      ensures again[i] == Handled(first[i], false)
    {
      RepassReusesEntry(files, prior, sameDay, read1, clock1, read2, clock2, i);
    }
    AllReused(again, first);
  }
}
