/**
  Measuring one file, deciding whether a cached status is stale, and looking a
  cached status up by name.
 */
module Measure {
  import opened Records
  import opened CjkCounter

  /** A cached status is stale when the file was modified after the status was
      measured, or when its size is no longer the recorded size. */
  predicate IsFileModified(file: FileHandle, existing: FileStatus)
  {
    file.mtime > existing.checkTime || file.size != existing.size
  }

  /** A fresh measurement of `file`, whose content is `content`, taken at time `now`. */
  function CreateFileStatus(file: FileHandle, content: seq<int>, now: int): (s: FileStatus)
    ensures s.name == file.path && s.size == file.size && s.checkTime == now
    ensures s.count == |CjkPositions(content)|
    ensures 0 <= s.count <= |content|
  {
    CountMatchesPositions(content);
    FileStatus(file.path, CjkCount(content), now, file.size)
  }

  /** A measurement is fresh against the file it measured exactly when it was
      taken no earlier than the file's last modification. */
  lemma MeasurementFreshIff(file: FileHandle, content: seq<int>, now: int)
    ensures !IsFileModified(file, CreateFileStatus(file, content, now)) <==> file.mtime <= now
  {
  }

  /** `i` is the position of the first status named `name`. */
  ghost predicate FirstNamed(statuses: seq<FileStatus>, name: string, i: int)
  {
    0 <= i < |statuses| && statuses[i].name == name &&
    forall j :: 0 <= j < i ==> statuses[j].name != name
  }

  /** The first cached status named `name`, if any (the `Array.find` of `handleSameDayFile`). */
  function FindStatus(statuses: seq<FileStatus>, name: string): (r: Option<FileStatus>)
    ensures r.None? <==> forall i :: 0 <= i < |statuses| ==> statuses[i].name != name
    ensures r.Some? ==> exists i :: FirstNamed(statuses, name, i) && statuses[i] == r.value
    decreases |statuses|
  {
    if |statuses| == 0 then None
    else if statuses[0].name == name then
      assert FirstNamed(statuses, name, 0);
      Some(statuses[0])
    else
      var r := FindStatus(statuses[1..], name);
      assert forall i :: 0 < i < |statuses| ==> statuses[1..][i - 1] == statuses[i];
      assert r.Some? ==> exists i :: FirstNamed(statuses, name, i) && statuses[i] == r.value by {
        if r.Some? {
          var k :| FirstNamed(statuses[1..], name, k) && statuses[1..][k] == r.value;
          assert FirstNamed(statuses, name, k + 1);
        }
      }
      r
  }

  /** At most one position is the first one carrying a name. */
  lemma FirstNamedUnique(statuses: seq<FileStatus>, name: string, i: int, j: int)
    requires FirstNamed(statuses, name, i) && FirstNamed(statuses, name, j)
    ensures i == j
  {
  }

  /** Among uniquely named statuses, the lookup finds the one with that name. */
  lemma FindUniquelyNamed(statuses: seq<FileStatus>, i: int)
    requires UniqueNames(statuses)
    requires 0 <= i < |statuses|
    ensures FindStatus(statuses, statuses[i].name) == Some(statuses[i])
  {
    var r := FindStatus(statuses, statuses[i].name);
    var k :| FirstNamed(statuses, statuses[i].name, k) && statuses[k] == r.value;
  }
}
