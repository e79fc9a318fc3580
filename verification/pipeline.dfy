/**
 cmd/github-backup/main.go, per repository: `cloneZipAndStoreInBucket` and
 `cloneZipAndStoreInFile` as state machines over the existing paths
 {repodir, archive}. Each collaborator's outcome is an input (`Stages`);
 `os.Open` fails on an absent archive and otherwise as `openErr` says.
 */
module Pipeline {
  import opened Errors
  import opened Strings
  import opened Fs
  import opened Git
  import opened Zippings

  datatype Account = Account(username: string, token: string)

  /** What the collaborators do for one repository. */
  datatype Stages = Stages(
    stamp: string,             // the minute `FilenameFor` reads from the clock
    transport: Option<Error>,  // go-git's PlainClone
    leftovers: bool,           // a failed clone left its directory behind
    compression: Compression,  // CompressIt
    openErr: Option<Error>,    // os.Open of an archive that exists
    upload: Option<Error>)     // CopyToBucket

  datatype Run = Run(fs: Fs, err: Option<Error>)

  function RepoDir(join: PathJoin, base: string, repo: string): string {
    join(base, repo)
  }

  function ArchivePath(join: PathJoin, base: string, repo: string, stamp: string): string {
    join(base, FilenameFor(repo, stamp))
  }

  /** `CloneRepo` and the directory it leaves. */
  function CloneInto(fs: Fs, join: PathJoin, base: string, repo: string, account: Account, st: Stages): Run {
    var c := CloneRepo(join, base, repo, account.username, account.token, st.transport);
    Run(if c.Attempted? && (c.err.None? || st.leftovers) then Create(fs, c.path) else fs, c.Err())
  }

  predicate CloneOk(join: PathJoin, base: string, repo: string, account: Account, st: Stages) {
    CloneRepo(join, base, repo, account.username, account.token, st.transport).Err().None?
  }

  function CloneErr(join: PathJoin, base: string, repo: string, account: Account, st: Stages): Option<Error> {
    CloneRepo(join, base, repo, account.username, account.token, st.transport).Err()
  }

  function Compress(fs: Fs, archive: string, st: Stages): Fs {
    if st.compression.created then Create(fs, archive) else fs
  }

  /** `os.Open(path)` */
  function Open(fs: Fs, path: string, openErr: Option<Error>): Option<Error> {
    if path !in fs.existing then Some(NotExist(path)) else openErr
  }

  /** Going from `before` to `after` changed no path that is neither one of
      `touched` nor below one of them. */
  ghost predicate Only(before: Fs, after: Fs, touched: set<string>) {
    after.stuck == before.stuck
    && forall p {:trigger Outside(p, touched)} :: Outside(p, touched) ==> (p in after.existing <==> p in before.existing)
  }

  /** `p` does not survive unless its removal fails. */
  ghost predicate Gone(before: Fs, after: Fs, p: string) {
    p !in before.stuck ==> p !in after.existing
  }

  /** `cloneZipAndStoreInBucket`: every exit removes what it staged, so the
      only paths it can leave behind are ones whose removal fails. A
      failed clone removes the repository directory and returns the clone's
      error; after a successful clone every exit removes both the directory
      and the archive, and the error is the first failing stage's. */
  function StoreInBucket(fs: Fs, join: PathJoin, basedir: string, repo: string, account: Account, st: Stages): (r: Run)
    ensures var dir, zip := RepoDir(join, basedir, repo), ArchivePath(join, basedir, repo, st.stamp);
      && Only(fs, r.fs, {dir, zip})
      && (forall q :: q in r.fs.existing ==> q in fs.existing || q in fs.stuck)
      && (!CloneOk(join, basedir, repo, account, st) ==>
            r.err == CloneErr(join, basedir, repo, account, st) && r.err.Some?
            && Only(fs, r.fs, {dir}) && Gone(fs, r.fs, dir))
      && (CloneOk(join, basedir, repo, account, st) ==> Gone(fs, r.fs, dir) && Gone(fs, r.fs, zip))
      && (CloneOk(join, basedir, repo, account, st) && st.compression.err.Some? ==> r.err == st.compression.err)
      && (CloneOk(join, basedir, repo, account, st) && st.compression.err.None? && st.compression.created ==>
            r.err == (if st.openErr.Some? then st.openErr else st.upload))
  {
    var dir, zip := RepoDir(join, basedir, repo), ArchivePath(join, basedir, repo, st.stamp);
    var cloned := CloneInto(fs, join, basedir, repo, account, st);
    if cloned.err.Some? then Run(Rm(cloned.fs, [dir]), cloned.err)
    else
      var zipped := Compress(cloned.fs, zip, st);
      if st.compression.err.Some? then Run(Rm(zipped, [dir, zip]), st.compression.err)
      else
        var opening := Open(zipped, zip, st.openErr);
        if opening.Some? then Run(Rm(zipped, [dir, zip]), opening)
        else if st.upload.Some? then Run(Rm(zipped, [dir, zip]), st.upload)
        else Run(Rm(zipped, [dir, zip]), None)
  }

  /** `cloneZipAndStoreInFile` as written. A failed compression removes both
      paths but does not return, so the `os.Open` that follows decides the
      result. Nil is returned only with the archive on the share (unless it
      lies inside the repository directory), even if the removal of that
      directory fails; any other result after a clone leaves no removable
      archive behind. */
  function StoreInFile(fs: Fs, join: PathJoin, share: string, repo: string, account: Account, st: Stages): (r: Run)
    ensures var dir, zip := RepoDir(join, share, repo), ArchivePath(join, share, repo, st.stamp);
      && Only(fs, r.fs, {dir, zip})
      && (!CloneOk(join, share, repo, account, st) ==>
            r.err == CloneErr(join, share, repo, account, st) && r.err.Some?
            && Only(fs, r.fs, {dir}) && Gone(fs, r.fs, dir))
      && (CloneOk(join, share, repo, account, st) ==> Gone(fs, r.fs, dir))
      && (r.err.None? && !Under(zip, dir) ==> zip in r.fs.existing)
      && (CloneOk(join, share, repo, account, st) && r.err.Some? ==> Gone(fs, r.fs, zip))
      && (CloneOk(join, share, repo, account, st) && st.compression.err.Some? && zip !in fs.stuck ==>
            r.err == Some(NotExist(zip)) && zip !in r.fs.existing)
      && (CloneOk(join, share, repo, account, st) && st.compression.err.None? && st.compression.created ==>
            r.err == st.openErr)
  {
    var dir, zip := RepoDir(join, share, repo), ArchivePath(join, share, repo, st.stamp);
    var cloned := CloneInto(fs, join, share, repo, account, st);
    if cloned.err.Some? then Run(Rm(cloned.fs, [dir]), cloned.err)
    else
      var zipped := Compress(cloned.fs, zip, st);
      var cleaned := if st.compression.err.Some? then Rm(zipped, [dir, zip]) else zipped;
      var opening := Open(cleaned, zip, st.openErr);
      if opening.Some? then Run(Rm(cleaned, [dir, zip]), opening)
      else Run(RemoveAll(cleaned, dir).fs, None)
  }

  /** As written, a failed compression is not the error reported: the open
      of the removed archive fails first, with its own error. */
  lemma FileCompressErrorReplaced(fs: Fs, join: PathJoin, share: string, repo: string, account: Account,
                                  st: Stages)
    requires CloneOk(join, share, repo, account, st)
    requires st.compression.err.Some?
    requires ArchivePath(join, share, repo, st.stamp) !in fs.stuck
    requires st.compression.err != Some(NotExist(ArchivePath(join, share, repo, st.stamp)))
    ensures StoreInFile(fs, join, share, repo, account, st).err != st.compression.err
  {
  }

  /** As written, a failed compression whose partial archive cannot be
      removed is reported as a successful backup, and that archive is kept. */
  lemma FileCompressFailureReportedAsSuccess(fs: Fs, join: PathJoin, share: string, repo: string,
                                             account: Account, st: Stages)
    requires CloneOk(join, share, repo, account, st)
    requires st.compression.err.Some? && st.compression.created && st.openErr.None?
    requires ArchivePath(join, share, repo, st.stamp) in fs.stuck
    requires !Under(ArchivePath(join, share, repo, st.stamp), RepoDir(join, share, repo))
    ensures StoreInFile(fs, join, share, repo, account, st).err.None?
    ensures ArchivePath(join, share, repo, st.stamp) in StoreInFile(fs, join, share, repo, account, st).fs.existing
  {
    var dir, zip := RepoDir(join, share, repo), ArchivePath(join, share, repo, st.stamp);
    var cloned := CloneInto(fs, join, share, repo, account, st);
    var zipped := Compress(cloned.fs, zip, st);
    assert zip in zipped.existing;
    assert zip in Rm(zipped, [dir, zip]).existing;
  }

  /** `cloneZipAndStoreInFile` with the return its compression branch
      evidently lacks (the bucket variant has it): a failed compression
      removes both paths and reports its own error, and success is reported
      only when every stage succeeded. */
  function StoreInFileChecked(fs: Fs, join: PathJoin, share: string, repo: string, account: Account, st: Stages): (r: Run)
    ensures var dir, zip := RepoDir(join, share, repo), ArchivePath(join, share, repo, st.stamp);
      && Only(fs, r.fs, {dir, zip})
      && (!CloneOk(join, share, repo, account, st) ==>
            r.err == CloneErr(join, share, repo, account, st) && r.err.Some?
            && Only(fs, r.fs, {dir}) && Gone(fs, r.fs, dir))
      && (CloneOk(join, share, repo, account, st) ==> Gone(fs, r.fs, dir))
      && (r.err.None? && !Under(zip, dir) ==> zip in r.fs.existing)
      && (CloneOk(join, share, repo, account, st) && r.err.Some? ==> Gone(fs, r.fs, zip))
      && (CloneOk(join, share, repo, account, st) && st.compression.err.Some? ==> r.err == st.compression.err)
      && (r.err.None? ==> CloneOk(join, share, repo, account, st) && st.compression.err.None? && st.openErr.None?)
      && (CloneOk(join, share, repo, account, st) && st.compression.err.None? && st.compression.created ==>
            r.err == st.openErr)
  {
    var dir, zip := RepoDir(join, share, repo), ArchivePath(join, share, repo, st.stamp);
    var cloned := CloneInto(fs, join, share, repo, account, st);
    if cloned.err.Some? then Run(Rm(cloned.fs, [dir]), cloned.err)
    else
      var zipped := Compress(cloned.fs, zip, st);
      if st.compression.err.Some? then Run(Rm(zipped, [dir, zip]), st.compression.err)
      else
        var opening := Open(zipped, zip, st.openErr);
        if opening.Some? then Run(Rm(zipped, [dir, zip]), opening)
        else Run(RemoveAll(zipped, dir).fs, None)
  }

  /** The correction changes nothing but the compression-failure exit:
      on every other path both share pipelines agree. */
  lemma CheckedDiffersOnlyOnCompressFailure(fs: Fs, join: PathJoin, share: string, repo: string,
                                            account: Account, st: Stages)
    requires !(CloneOk(join, share, repo, account, st) && st.compression.err.Some?)
    ensures StoreInFileChecked(fs, join, share, repo, account, st) == StoreInFile(fs, join, share, repo, account, st)
  {
  }
}
