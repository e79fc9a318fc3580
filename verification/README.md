# github-backup in Dafny

A model of the decision logic of `github-backup`, a job that backs up every
repository of a set of GitHub organisations. It lists each organisation's
repositories page by page. It shallow-clones every repository and zips the
clone. It then uploads the archive to an object-store bucket, or keeps it on
a network share.

Everything around that logic is I/O, and each I/O outcome is an input of
the model:
- the HTTP replies, as a map from URL to reply;
- the directory walk, as the sequence of callback visits;
- the clone, compression, open and upload outcomes, as a `Stages` record;
- the clock, as a number.

The file system is a set of existing paths, plus the set of paths whose
removal fails. A path lies below another when it starts with that path and
a `/`, and removing a path removes everything below it.

Modules, following the repository's packages:

- `Strings`, `Seqs`: the Go `strings` operations the job uses. Each one is
  tied to an independent characterisation: containment as "occurs at some
  index", and `Split`/`Join` as mutual inverses.
- `Errors`: `Option` and the error values.
- `Fs`: `os.RemoveAll`, and `rm` of `cmd/github-backup/main.go`.
- `Walks`: a `filepath.Walk` as the visits it makes.
- `Zippings` (`pkg/zippings`): the archive name, skip test, entry naming, and
  `CompressIt`'s walk.
- `Git` (`pkg/git/git.go`): `CloneRepo`.
- `GitHub` (`pkg/git/github.go`): `nextUrl`, the request `getRequest` sends,
  and the `ReposFor` loop, as written and corrected.
- `NfsCleanup` (`pkg/nfs-cleanup`): `ListFiles` and `FindFileAge`.
- `Pipeline` (`cmd/github-backup/main.go`): the two per-repository
  pipelines as state machines over `{repodir, archive}`.
- `Backup` (`cmd/github-backup/main.go`): org splitting, the start-up
  clean-up of the share, the work list, and dispatch as a sequential fold.

`ReposFor` and `CompressIt` are methods with loops. Each is proved equal to,
or characterised by, a recursive reference definition (`Crawl`, `EntriesOf`,
`RegularFiles`). The lemmas then state the listed properties about those
definitions.

## Model

| member | source | states |
|---|---|---|
| Strings.ContainsIff | pkg/git/git.go:13 | the left-to-right scan behind `strings.Contains` succeeds exactly when the substring occurs at some index |
| Strings.TrimPrefix | pkg/zippings/compress.go:36 | with the prefix present, prefix + result is the input; without it the input is returned unchanged |
| Strings.ReplaceChar | pkg/zippings/compress.go:51 | length is kept, and each character equal to the pattern is replaced while every other character is kept |
| Strings.ReplaceCharConcat | pkg/zippings/compress.go:50-51 | replacing characters distributes over concatenation |
| Strings.Split | cmd/github-backup/main.go:29 | at least one piece, and no piece contains the separator |
| Strings.JoinSplit | cmd/github-backup/main.go:29 | joining the pieces of a split with the separator gives back the original string |
| Strings.SplitJoin | cmd/github-backup/main.go:29 | splitting the join of separator-free pieces gives back the pieces |
| Strings.JoinPair | cmd/github-backup/main.go:39-40 | joining two pieces puts exactly one separator between them |
| Seqs.FlattenAppend | cmd/github-backup/main.go:48-51 | flattening distributes over concatenation, so appending orgs one by one is flattening them all |
| Fs.RemoveAll | cmd/github-backup/main.go:180 | only the named path and what lies below it are affected; all of them are gone unless the removal fails, and an error is reported exactly when the path is still there |
| Fs.RemoveAllUndoesCreate | cmd/github-backup/main.go:180 | removing a freshly created path with nothing below it restores the file system, with no error |
| Fs.RemoveAllIdempotent | cmd/github-backup/main.go:180 | a second removal of the same path changes nothing |
| Fs.Rm | cmd/github-backup/main.go:177-185 | a path survives exactly when every entry at or above it is one whose removal fails; every entry whose removal can succeed is gone; no error is returned |
| Fs.RmSequential | cmd/github-backup/main.go:177-185 | removing two lists one after the other is removing their concatenation, so a failed removal never cuts the later ones short |
| Git.CloneRepo | pkg/git/git.go:11-25 | the target is `join(basedir, repo)`; it is rejected exactly when `..` occurs in it; otherwise the clone uses URL `https://github.com/<repo>`, depth 1 and the given credentials, and the transport's error is the result |
| Git.RejectionPrecedesClone | pkg/git/git.go:12-16 | a rejected path gives the same result whatever the clone would have done, and the error names the path |
| Git.DotsInNameRejected | pkg/git/git.go:13-15 | when the joined path ends with the repository name, any `..` in the name, even one inside a component, rejects the clone |
| GitHub.NextUrl | pkg/git/github.go:83-91 | the URL of the first link whose relation is `next`, or "" when no link has that relation |
| GitHub.ReposFor | pkg/git/github.go:24-57 | the page loop, started at `https://api.github.com/orgs/<org>/repos`, computes exactly the reference crawl: result, requests sent, and counter increments |
| GitHub.ResumeAfterPage | pkg/git/github.go:51-54 | appending a decoded page moves it from the rest of the listing to the accumulated prefix, so the loop state is preserved |
| GitHub.CrawlTrace | pkg/git/github.go:29-81 | the first request is to the start URL; each request follows the `next` link of the previous full page; every request `getRequest` is asked to build is a GET with the three fixed headers; at most one request per unit of fuel; the counter grows by the size of each decoded page |
| GitHub.CrawlListed | pkg/git/github.go:28-56 | a successful listing is the concatenation of the fetched pages in fetch order; every page was a 200; the last page had no `next` link; the counter grew by the number of repositories listed |
| GitHub.CrawlStops | pkg/git/github.go:32-50 | a failure is classified by the last reply: a panic exactly on a request without a response; a nil error exactly on a non-200 status; the body's error on a read or decode failure |
| GitHub.CheckedNeverSilent | pkg/git/github.go:32-40 | the corrected loop never panics, and every early return carries an error |
| GitHub.CheckedAgrees | pkg/git/github.go:24-57 | the corrected loop sends the same requests, counts the same pages and lists the same repositories as the original; it differs only in how a failure is reported |
| GitHub.ReposForChecked | pkg/git/github.go:24-57 | the corrected `ReposFor`: never panics, never returns no list without an error, and agrees with the original on requests, counter and successful listings |
| GitHub.NonOkStatusIsSilent | pkg/git/github.go:33-36 | as written, a non-200 first page ends with a nil list and a nil error; the corrected loop reports the status |
| GitHub.TransportFailurePanics | pkg/git/github.go:32-33 | as written, a request without a response panics; the corrected loop returns the request's error |
| Zippings.FilenameFor | pkg/zippings/compress.go:48-52 | `ghbackup_<repo>_<stamp>.zip` with every `/` turned into `_`; no `/` in the result; it starts with `ghbackup_` and ends with `.zip`; its length is 14 more than repo and stamp together |
| Zippings.ShouldBeSkipped | pkg/zippings/compress.go:54-60 | skipped exactly when the walked path is a suffix of the archive path; the archive's own path is always skipped |
| Zippings.EntryName | pkg/zippings/compress.go:36 | the walked path with a leading `src + "/"` removed, unchanged when it lacks that prefix |
| Zippings.EntryNameOfChild | pkg/zippings/compress.go:36 | a file below the root is stored under its path relative to the root |
| Zippings.CompressIt | pkg/zippings/compress.go:13-46 | the archive is created exactly when its creation does not fail; the first failing visit (walk, open, create or copy error) ends the walk and is returned, with exactly the entries before it stored; on success every selected file is stored, in walk order |
| Zippings.EntriesAreSelectedFiles | pkg/zippings/compress.go:27-44 | the stored entries are exactly the names of the visits that are neither directories nor the archive itself |
| NfsCleanup.ListFiles | pkg/nfs-cleanup/cleanup.go:11-29 | a list is returned exactly when no visit carries an error, and it holds the non-directory paths in walk order; otherwise the first error is returned |
| NfsCleanup.RegularFilesAreFiles | pkg/nfs-cleanup/cleanup.go:18-20 | the listing holds exactly the paths visited as non-directories, so directories never appear |
| NfsCleanup.Since | pkg/nfs-cleanup/cleanup.go:39 | the difference of two instants as a Duration: exact when it fits in 64 bits, the maximum Duration above that range and the minimum below it |
| NfsCleanup.FindFileAge | pkg/nfs-cleanup/cleanup.go:31-41 | an error exactly when the stat failed, then age 0 and that error; otherwise age `now - modTime` whenever that fits in a Duration, always within the Duration bounds, and negative exactly when the modification time is after `now` |
| NfsCleanup.AgeGrowsWithClock | pkg/nfs-cleanup/cleanup.go:39 | a file's age does not decrease as the clock advances |
| Pipeline.StoreInBucket | cmd/github-backup/main.go:120-157 | of the tracked paths, only `repodir`, the archive and what lies below them change, and of those nothing is left behind but paths whose removal fails; a failed clone removes `repodir` only and returns the clone's error; after a successful clone every exit removes both paths and returns the first failing stage's error, or nil |
| Pipeline.StoreInFile | cmd/github-backup/main.go:89-119 | as written: a failed clone removes `repodir` and returns its error; after a compress failure the following open of the removed archive fails; nil is returned only with the archive on the share, even if removing `repodir` fails; any other result after a clone leaves no removable archive |
| Pipeline.FileCompressErrorReplaced | cmd/github-backup/main.go:101-112 | as written, a compress failure is not the error returned |
| Pipeline.FileCompressFailureReportedAsSuccess | cmd/github-backup/main.go:101-118 | as written, a compress failure whose partial archive cannot be removed is reported as success, and that archive is kept |
| Pipeline.StoreInFileChecked | cmd/github-backup/main.go:89-119 | the share pipeline with the missing return: a compress failure removes both paths and is the error returned; success only when clone, compression and open all succeeded, with the archive kept |
| Pipeline.CheckedDiffersOnlyOnCompressFailure | cmd/github-backup/main.go:101-105 | the corrected share pipeline agrees with the one as written on every input except a compress failure after a successful clone |
| Backup.Orgs | cmd/github-backup/main.go:28-29 | the comma-split organisations: at least one, none containing a comma, and joined back they give `ORG_NAMES` |
| Backup.OrgsRoundTrip | cmd/github-backup/main.go:29 | any list of comma-free names is recovered by splitting its comma join |
| Backup.CleanupTargets | cmd/github-backup/main.go:38-40 | one target per organisation, `share + "/" + org`, in order |
| Backup.StartupCleanup | cmd/github-backup/main.go:34-44 | as written: each organisation directory on the share is removed with everything below it, including clone directories a failed run left; a path survives exactly when every organisation directory at or above it is one whose removal fails |
| Backup.TrailingCommaNamesEmptyOrg | cmd/github-backup/main.go:28-29 | `ORG_NAMES="o,"` splits into the organisations `o` and the empty name |
| Backup.EmptyOrgWipesShare | cmd/github-backup/main.go:38-41 | as written, an empty organisation name makes the clean-up remove every path below the share, every archive included |
| Backup.StartupCleanupChecked | cmd/github-backup/main.go:38-41 | the clean-up with empty names skipped: only named organisations' directories and what lies below them are removed; without empty names it is the clean-up as written |
| Backup.CheckedCleanupKeepsArchives | cmd/github-backup/main.go:38-41 | the corrected clean-up keeps every slash-free entry of the share that is not an organisation's own name, so every archive survives it |
| Backup.WorkList | cmd/github-backup/main.go:48-51 | the run proceeds to dispatch exactly when every organisation's discovery returned a list or a nil error; otherwise it stops at the first one that did not, and says whether it exited or crashed |
| Backup.WorkListConcatenates | cmd/github-backup/main.go:48-51 | the work list is the concatenation of each organisation's repositories, in `ORG_NAMES` order |
| Backup.WorkListAppend | cmd/github-backup/main.go:48-51 | listing two groups of organisations in one run gives the first group's work list followed by the second's |
| Backup.ReadyIffAllListed | cmd/github-backup/main.go:168-175 | with the corrected discovery, dispatch starts exactly when every organisation was fully listed |
| Backup.Process | cmd/github-backup/main.go:71-81 | the goroutine's pipeline as written, per mode: only the repository's two paths and what lies below them change; `repodir` is gone unless its removal fails; a failed clone is an error; a failure after a good clone leaves no removable archive; in bucket mode none of the repository's own paths is left behind unless its removal fails; in share mode nil means the archive is on the share |
| Backup.JobConfined | cmd/github-backup/main.go:70-84 | every run of a dispatched goroutine changes only its own repository's paths, and removes its `repodir` unless that removal fails |
| Backup.Dispatch | cmd/github-backup/main.go:63-86 | every repository of the work list is attempted exactly once, in order, and the first attempt's error is the pipeline's |
| Backup.DispatchAttempt | cmd/github-backup/main.go:66-85 | the error of each attempt is what its pipeline returns on the file system all earlier attempts left behind |
| Backup.DispatchSequential | cmd/github-backup/main.go:66-85 | dispatching a concatenation is dispatching its parts one after the other, so no failure cuts later repositories short |
| Backup.DispatchFrame | cmd/github-backup/main.go:66-85 | a dispatch whose every step is confined to its repository's own paths changes no tracked path that is not at or below one of the repositories' working directories or archives, and never what can be removed |
| Backup.BucketLeavesNothingBehind | cmd/github-backup/main.go:120-157 | in bucket mode, after the run no repository directory exists, and no archive exists that did not exist before |
| Backup.DispatchClearsDirs | cmd/github-backup/main.go:66-119 | for any steps that each remove their own repository's directory, no repository directory remains after the dispatch, whatever the steps return |
| Backup.DispatchKeepsArchive | cmd/github-backup/main.go:66-119 | for any step that acts like one share pipeline per repository, at each position of the work list: the archive of a nil result is on the share after the whole dispatch, and an archive with any other result was there before a failed clone |
| Backup.ShareKeepsSuccessfulArchives | cmd/github-backup/main.go:76-119 | in share mode as written, after the run no repository directory exists; the archive of every successful repository is on the share; any other archive was there before a failed clone |
| Backup.BackupRun | cmd/github-backup/main.go:21-87 | the run as written: its work list is the one discovery yields; a halted start dispatches nothing and leaves the file system as the share clean-up left it (unchanged in bucket mode); a ready start attempts every repository of the work list once, in order, each attempt's error being what its pipeline returned on the file system the earlier attempts left, and changes no tracked path outside the repositories' own paths after the clean-up |
| Backup.BucketRunLeavesNothingBehind | cmd/github-backup/main.go:46-87 | for the whole run in bucket mode: no repository directory remains and no archive exists that did not exist at start |
| Backup.ShareRunKeepsSuccessfulArchives | cmd/github-backup/main.go:34-87 | for the whole run in share mode as written: no repository directory remains; the archive of every nil attempt is on the share; any other archive survived the start-up clean-up and preceded a failed clone |

## Left out

- Goroutines, the channel semaphore and the `WaitGroup` (`cmd/github-backup/main.go:63-86`): dispatch is a sequential fold in work-list order. When the work list's full names are distinct, the pipelines only overlap and each works on its own paths. A repository listed twice (`ORG_NAMES="a,a"`, or a repository repeated across pages) makes two goroutines clone into and remove the same `repodir` at once; that race is not modelled.
- The HTTP transport (`client.Do`, `url.Parse`) and Link-header parsing (section 3 of RFC 8288): replies and parsed link lists are inputs. `url.Parse` and `http.NewRequest` failures are folded into "no response", and such a URL still appears among the recorded requests, so `CrawlTrace`'s claim about every request's verb and headers is about the requests `getRequest` was asked to build.
- go-git `PlainClone`, the zip codec, `io.Copy`, `os.Open`, `os.Create`, `os.RemoveAll` and `os.Stat`: each is an outcome plus its effect on the set of existing paths. A clone creates its working directory as one path; the files go-git writes inside it are not modelled, but anything already below it is removed with it.
- Paths are compared as strings: "below" means starting with the path and a `/`, with only a single trailing slash normalised. `.` and `..` segments, repeated slashes and symbolic links are not resolved.
- Fs.RemoveAll: a failed removal removes nothing. `os.RemoveAll` can fail part-way after deleting some entries below the path; the model does not promise which entries those are.
- `zipWriter.Close` and `archive.Close` errors (deferred, ignored by the source): not modelled.
- `filepath.Join`'s lexical cleaning: `Join` is an abstract function parameter. The `..` check is proved only about the joined string. Cleaning can remove `..` segments before the check, so the model makes no claim that every traversal is caught.
- `pkg/objstorage/storage.go` (the bucket upload): its outcome is the `upload` stage input. The object key built there from the date and the file's base name is not modelled.
- `pkg/metrics/metrics.go`: only the per-organisation repository counter is modelled, as `counted`. The backup total, success and failure counters are never incremented in the code.
- `time.Now` and its formatting: the archive stamp and the current time are parameters.
- Environment variables, logging, `envOrDie` and `os.Exit`: `reposOrDie`'s exit is the `Exited` halt.
- The GCS client created at `cmd/github-backup/main.go:55`: it shadows the outer variable and is never handed to the pipelines. It is wiring with no modellable behaviour, and the upload is an input.
- A retention sweep that deletes archives older than a time-to-live is described for the share, but the code has none. Only `ListFiles`, `FindFileAge` and the unconditional start-up removal of each organisation directory are modelled, following the code.
- GitHub.ReposFor: pages are bounded by `fuel`; `Exhausted` stands for a chain of `next` links that does not end within it.
- Backup.BucketLeavesNothingBehind: requires that no path of one repository lies at or below a path of another, and that none of them is a path whose removal fails. That separation holds when repository full names are distinct and `join` keeps them apart, which the model does not derive.
- Backup.DispatchClearsDirs: requires `Separate` (the repositories' paths pairwise apart, none of them a path whose removal fails); with the same repository twice in the work list the claim is not made.
- Backup.DispatchKeepsArchive: requires `Separate` and that no repository's archive lies inside its own `repodir`, for the same reasons as `ShareKeepsSuccessfulArchives`.
- Backup.BucketRunLeavesNothingBehind and Backup.ShareRunKeepsSuccessfulArchives: carry the preconditions of the two dispatch lemmas they lift to the whole run, with separation judged on the file system after the clean-up in share mode.
- Backup.ShareKeepsSuccessfulArchives: requires, besides separate paths, that no repository's archive lies inside its own `repodir`. The corrected pipeline `StoreInFileChecked` and the corrected clean-up `StartupCleanupChecked` stand alongside the run; the run itself uses the code as written.
- Pipeline.StoreInBucket: a clone is modelled as creating only `repodir`. `git.PlainClone` also creates its missing parents, such as `basedir` and `basedir/<org>`, which no exit removes; they are not tracked. The same holds for `StoreInFile`, `Process`, `DispatchFrame` and `BackupRun`, so "nothing is left behind" and "no other path changes" speak of the tracked paths only. In share mode the leftover `share/<org>` directories are removed by the next start-up clean-up.
- Pipeline.StoreInFile: "nil means the archive is on the share" is promised only when the archive does not lie inside `repodir`, because the final `os.RemoveAll(repodir)` would take it along. `StoreInFileChecked` has the same limit.
- Backup.BackupRun: takes discovery as a parameter. `Discover` gives the corrected one, and `Crawl` the one as written.
- Zippings.FilenameFor: strings are sequences of characters, while Go's `len` counts bytes. The length claim agrees with Go only for ASCII names, which GitHub repository names are.

## Findings

| source | as written | input that shows it | evidently intended | confidence | as-written member | corrected member |
|---|---|---|---|---|---|---|
| pkg/git/github.go:33-36 | a non-200 status returns the request's error, which is nil when the request itself succeeded | the organisation's first page answers 404 | return an error so that `reposOrDie` exits | high; not executed | GitHub.NonOkStatusIsSilent | GitHub.ReposForChecked |
| pkg/git/github.go:32-33 | `res.StatusCode` is read before `err` is checked, and `res` is nil when the request failed | a request that gets no response | check `err` first and return it | high; not executed | GitHub.TransportFailurePanics | GitHub.ReposForChecked |
| cmd/github-backup/main.go:101-105 | a compress failure is logged but not returned, so the open of the removed archive decides the result | `CompressIt` fails after creating the archive | return the compress error, as the bucket variant does | high; not executed | Pipeline.FileCompressErrorReplaced | Pipeline.StoreInFileChecked |
| cmd/github-backup/main.go:101-118 | after a compress failure whose archive cannot be removed, the open succeeds and nil is returned | `CompressIt` fails and the partial archive's removal fails | report the compress failure | medium; not executed | Pipeline.FileCompressFailureReportedAsSuccess | Pipeline.StoreInFileChecked |
| cmd/github-backup/main.go:38-41 | an empty organisation name yields the target `share + "/"`, and `os.RemoveAll` of it deletes every archive on the share | `ORG_NAMES="o,"` with `NFS_SHARE` set | skip empty organisation names | medium; not executed | Backup.EmptyOrgWipesShare | Backup.StartupCleanupChecked |
