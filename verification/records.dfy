/**
  The records the word-count plugin works with: what the vault reports about a
  file, the per-file status cached between passes, and the persisted settings.
  Timestamps are milliseconds since the epoch; sizes are byte counts.
 */
module Records {

  /** The result of a lookup that may find nothing. */
  datatype Option<T> = None | Some(value: T)

  /** A file as the vault reports it: its path, its byte size and its last
      modification time. */
  datatype FileHandle = FileHandle(path: string, size: int, mtime: int)

  /** The cached measurement of one file: how many ideographs it held, when it
      was measured and how large it was then. */
  datatype FileStatus = FileStatus(name: string, count: int, checkTime: int, size: int)

  /** The persisted plugin state: the current total, the total at the start of
      the current day, when that day started, and the cached statuses. */
  datatype Data = Data(count: int, initCount: int, initTime: int, files: seq<FileStatus>)

  /** The state used when nothing has been saved yet. */
  const DefaultData: Data := Data(0, 0, 0, [])

  /** No two statuses carry the same name. */
  ghost predicate UniqueNames(statuses: seq<FileStatus>)
  {
    forall i, j :: 0 <= i < j < |statuses| ==> statuses[i].name != statuses[j].name
  }

  /** No two handles carry the same path, as the vault guarantees. */
  ghost predicate DistinctPaths(files: seq<FileHandle>)
  {
    forall i, j :: 0 <= i < j < |files| ==> files[i].path != files[j].path
  }

  /** `name` is the path of some file in `files`. */
  ghost predicate IsLivePath(files: seq<FileHandle>, name: string)
  {
    exists i :: 0 <= i < |files| && files[i].path == name
  }
}
