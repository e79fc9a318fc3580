/**
 A `filepath.Walk` traversal, given as the sequence of calls it makes to its
 callback: the visited path, whether it is a directory, and the error the
 walk passes along for it (an unreadable directory, a vanished root).
 */
module Walks {
  import opened Errors

  datatype Visit = Visit(path: string, isDir: bool, err: Option<Error>)

  /** Index `k` is the first visit that reports an error. */
  ghost predicate FirstWalkError(walk: seq<Visit>, k: int) {
    0 <= k < |walk| && walk[k].err.Some?
    && forall j :: 0 <= j < k ==> walk[j].err.None?
  }
}
