/**
 pkg/nfs-cleanup: listing the regular files under a directory and the age
 of one file. The walk and `os.Stat` are inputs; the clock is the `now`
 parameter, in nanoseconds, as `time.Since` measures it.
 */
module NfsCleanup {
  import opened Errors
  import opened Walks

  datatype Listing = Files(paths: seq<string>) | WalkFailed(err: Error)

  /** Reference definition: the paths of the non-directory visits, in walk order. */
  ghost function RegularFiles(walk: seq<Visit>): seq<string>
    decreases |walk|
  {
    if |walk| == 0 then []
    else
      var last := walk[|walk| - 1];
      RegularFiles(walk[..|walk| - 1]) + (if last.isDir then [] else [last.path])
  }

  /** `ListFiles(dir)` over the walk of `dir`: collect every non-directory
      path; the first visit that carries an error aborts the walk, and then
      no list is returned, only that error. */
  method ListFiles(walk: seq<Visit>) returns (r: Listing)
    ensures r.Files? <==> forall i :: 0 <= i < |walk| ==> walk[i].err.None?
    ensures r.Files? ==> r.paths == RegularFiles(walk)
    ensures r.WalkFailed? ==> exists k :: FirstWalkError(walk, k) && walk[k].err == Some(r.err)
  {
    var files: seq<string> := [];
    var i := 0;
    while i < |walk|
      invariant 0 <= i <= |walk|
      invariant forall j :: 0 <= j < i ==> walk[j].err.None?
      invariant files == RegularFiles(walk[..i])
    {
      if walk[i].err.Some? {
        assert FirstWalkError(walk, i);
        return WalkFailed(walk[i].err.value);
      }
      assert walk[..i + 1][..i] == walk[..i];
      if !walk[i].isDir {
        files := files + [walk[i].path];
      }
      i := i + 1;
    }
    assert walk[..i] == walk;
    r := Files(files);
  }

  /** The listing holds exactly the paths visited as non-directories:
      directories never appear in it. */
  lemma {:induction false} RegularFilesAreFiles(walk: seq<Visit>)
    ensures |RegularFiles(walk)| <= |walk|
    ensures forall p :: p in RegularFiles(walk) <==>
      exists i :: 0 <= i < |walk| && !walk[i].isDir && walk[i].path == p
    decreases |walk|
  {
    if |walk| > 0 {
      var init := walk[..|walk| - 1];
      RegularFilesAreFiles(init);
      forall p ensures p in RegularFiles(walk) <==>
        exists i :: 0 <= i < |walk| && !walk[i].isDir && walk[i].path == p
      {
        if p in RegularFiles(init) {
          var i :| 0 <= i < |init| && !init[i].isDir && init[i].path == p;
          assert walk[i] == init[i];
        }
        if exists i :: 0 <= i < |walk| && !walk[i].isDir && walk[i].path == p {
          var i :| 0 <= i < |walk| && !walk[i].isDir && walk[i].path == p;
          if i < |init| {
            assert init[i] == walk[i];
          }
        }
      }
    }
  }

  /** `time.Duration` is a signed 64-bit count of nanoseconds. */
  const MinDuration: int := -0x8000_0000_0000_0000
  const MaxDuration: int := 0x7fff_ffff_ffff_ffff

  /** `now.Sub(t)`: the exact difference when it fits a Duration, otherwise
      the nearest bound (Go saturates instead of wrapping). */
  function Since(now: int, t: int): (d: int)
    ensures MinDuration <= d <= MaxDuration
    ensures MinDuration <= now - t <= MaxDuration ==> d == now - t
    ensures now - t > MaxDuration ==> d == MaxDuration
    ensures now - t < MinDuration ==> d == MinDuration
  {
    if now - t > MaxDuration then MaxDuration
    else if now - t < MinDuration then MinDuration
    else now - t
  }

  datatype Stat = Stat(modTime: int) | StatFailed(err: Error)

  datatype Age = Age(age: int, err: Option<Error>)

  /** `FindFileAge(path)` given the outcome of `os.Stat(path)`. */
  function FindFileAge(stat: Stat, now: int): (r: Age)
    ensures r.err.Some? <==> stat.StatFailed?
    ensures stat.StatFailed? ==> r.age == 0 && r.err == Some(stat.err)
    ensures stat.Stat? && MinDuration <= now - stat.modTime <= MaxDuration ==> r.age == now - stat.modTime
    ensures stat.Stat? ==> MinDuration <= r.age <= MaxDuration
    ensures stat.Stat? ==> (r.age < 0 <==> now < stat.modTime)
  {
    match stat
    case StatFailed(e) => Age(0, Some(e))
    case Stat(m) => Age(Since(now, m), None)
  }

  /** A file only gets older as the clock advances. */
  lemma AgeGrowsWithClock(stat: Stat, now: int, later: int)
    requires now <= later
    ensures FindFileAge(stat, now).age <= FindFileAge(stat, later).age
  {
  }
}
