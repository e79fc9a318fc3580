/**
 cmd/github-backup/main.go, the run: split `ORG_NAMES`, clear each
 organisation's directory on the share, list every organisation's
 repositories into one work list, and run the pipeline for each of them.
 The goroutines, the semaphore and the wait group only overlap the
 pipelines; the model runs them one after the other, in work-list order.
 */
module Backup {
  import opened Errors
  import opened Strings
  import opened Seqs
  import opened Fs
  import opened Git
  import opened GitHub
  import opened Pipeline

  /** `strings.Split(ORG_NAMES, ",")` */
  function Orgs(orgNames: string): (orgs: seq<string>)
    ensures |orgs| >= 1
    ensures forall i :: 0 <= i < |orgs| ==> ',' !in orgs[i]
    ensures Join(orgs, ',') == orgNames
  {
    JoinSplit(orgNames, ',');
    Split(orgNames, ',')
  }

  /** Distinct organisation lists come from distinct settings, and every
      list of comma-free names is what some setting splits into. */
  lemma OrgsRoundTrip(orgs: seq<string>)
    requires |orgs| >= 1
    requires forall i :: 0 <= i < |orgs| ==> ',' !in orgs[i]
    ensures Orgs(Join(orgs, ',')) == orgs
  {
    SplitJoin(orgs, ',');
  }

  /** The paths removed at start-up on the share: `strings.Join([share, org], "/")`. */
  function CleanupTargets(share: string, orgs: seq<string>): (targets: seq<string>)
    ensures |targets| == |orgs|
    ensures forall i :: 0 <= i < |orgs| ==> targets[i] == share + "/" + orgs[i]
  {
    forall i | 0 <= i < |orgs| ensures Join([share, orgs[i]], '/') == share + "/" + orgs[i] {
      JoinPair(share, orgs[i], '/');
    }
    seq(|orgs|, i requires 0 <= i < |orgs| => Join([share, orgs[i]], '/'))
  }

  /** The start-up clean-up of the share: each organisation's directory is
      removed with everything below it (clone directories a failed run left
      behind), errors are ignored, and nothing else is touched. A path
      survives exactly when every target at or above it is one whose
      removal fails. */
  function StartupCleanup(fs: Fs, share: string, orgs: seq<string>): (r: Fs)
    ensures r.stuck == fs.stuck
    ensures forall p :: p in r.existing <==> (p in fs.existing
      && forall i :: 0 <= i < |orgs| && Under(p, share + "/" + orgs[i]) ==> share + "/" + orgs[i] in fs.stuck)
  {
    Rm(fs, CleanupTargets(share, orgs))
  }

  /** A trailing comma in `ORG_NAMES` yields an empty organisation name. */
  lemma TrailingCommaNamesEmptyOrg()
    ensures Orgs("o,") == ["o", ""]
  {
    JoinPair("o", "", ',');
    assert "o" + [','] + "" == "o,";
    OrgsRoundTrip(["o", ""]);
  }

  /** As written, an empty organisation name makes the clean-up remove the
      share itself: the target is `share + "/"`, and every path below it,
      each stored archive included, is gone. */
  lemma EmptyOrgWipesShare(fs: Fs, share: string, orgs: seq<string>)
    requires "" in orgs
    requires share + "/" !in fs.stuck
    ensures forall q :: HasPrefix(q, share + "/") ==> q !in StartupCleanup(fs, share, orgs).existing
  {
    var i :| 0 <= i < |orgs| && orgs[i] == "";
    assert share + "/" + orgs[i] == share + "/";
    assert AsDir(share + "/") == share + "/";
  }

  /** The organisation names that are not empty, in order. */
  function Named(orgs: seq<string>): (named: seq<string>)
    ensures forall o :: o in named <==> o in orgs && o != ""
    ensures "" !in orgs ==> named == orgs
    decreases |orgs|
  {
    if |orgs| == 0 then []
    else
      var rest := Named(orgs[1..]);
      assert forall o :: o in orgs <==> o == orgs[0] || o in orgs[1..];
      if orgs[0] == "" then rest
      else
        assert "" !in orgs ==> [orgs[0]] + orgs[1..] == orgs;
        [orgs[0]] + rest
  }

  /** The clean-up with empty organisation names skipped: only the
      directories of named organisations are removed. */
  function StartupCleanupChecked(fs: Fs, share: string, orgs: seq<string>): (r: Fs)
    ensures r.stuck == fs.stuck
    ensures forall p :: p in r.existing <==> (p in fs.existing
      && forall o :: o in orgs && o != "" && Under(p, share + "/" + o) ==> share + "/" + o in fs.stuck)
    ensures "" !in orgs ==> r == StartupCleanup(fs, share, orgs)
  {
    var named := Named(orgs);
    var r := StartupCleanup(fs, share, named);
    forall o | o in orgs && o != "" ensures exists i :: 0 <= i < |named| && named[i] == o {
      assert o in named;
    }
    r
  }

  /** A separator-free name directly on the share, such as an archive, is
      neither a named organisation's directory nor below one. */
  lemma PlainEntryNotBelowOrg(share: string, name: string, org: string)
    requires '/' !in name && org != "" && name != org
    ensures !Under(share + "/" + name, share + "/" + org)
  {
    var p, t := share + "/" + name, share + "/" + org;
    var n := |share| + 1;
    assert p[n..] == name;
    assert t[n..] == org;
    var d := AsDir(t);
    var k := if HasSuffix(t, "/") then |t| - 1 else |t|;
    assert d[k] == '/' by {
      if HasSuffix(t, "/") {
        assert t[|t| - 1..] == "/";
      }
    }
    if k < |p| {
      assert p[k] == name[k - n];
    }
  }

  /** With empty names skipped, the clean-up keeps every separator-free
      entry of the share that is not itself an organisation's directory:
      in particular every archive, whose name `FilenameFor` makes one path
      component. */
  lemma {:induction false} CheckedCleanupKeepsArchives(fs: Fs, share: string, orgs: seq<string>, name: string)
    requires '/' !in name && name !in orgs
    ensures share + "/" + name in StartupCleanupChecked(fs, share, orgs).existing <==> share + "/" + name in fs.existing
  {
    forall o | o in orgs && o != "" ensures !Under(share + "/" + name, share + "/" + o) {
      PlainEntryNotBelowOrg(share, name, o);
    }
  }

  /** Why the run stops before dispatching anything: `reposOrDie` exits on
      an error, `ReposFor` panicked, or its paging never ended. */
  datatype Halt = Exited(org: string) | Crashed(org: string) | Hung(org: string)

  datatype Startup = Ready(work: seq<Repo>) | Halted(halt: Halt)

  /** `reposOrDie` lets the run go on: a list, or a nil list with a nil error. */
  predicate Proceeds(r: Returned) {
    r.Listed? || r == Bailed(None)
  }

  /** What `append(repos, reposOrDie(org, token)...)` adds to the work list. */
  function Contribution(r: Returned): seq<Repo> {
    if r.Listed? then r.repos else []
  }

  /** `orgs[k]` is the first organisation whose discovery stops the run. */
  predicate FirstStop(orgs: seq<string>, discover: string -> Returned, k: int) {
    0 <= k < |orgs| && !Proceeds(discover(orgs[k])) && forall j :: 0 <= j < k ==> Proceeds(discover(orgs[j]))
  }

  /** The work list: each organisation's repositories, in the order of the
      organisations, stopping at the first one whose discovery does not
      let the run go on. */
  function WorkList(orgs: seq<string>, discover: string -> Returned): (s: Startup)
    ensures s.Ready? <==> forall i :: 0 <= i < |orgs| ==> Proceeds(discover(orgs[i]))
    ensures s.Halted? ==> exists k :: FirstStop(orgs, discover, k) && s.halt.org == orgs[k]
    ensures s.Halted? ==> ((s.halt.Exited? <==> discover(s.halt.org).Bailed?)
      && (s.halt.Crashed? <==> discover(s.halt.org).Panicked?))
    decreases |orgs|
  {
    if |orgs| == 0 then Ready([])
    else
      var org := orgs[0];
      var rest := WorkList(orgs[1..], discover);
      assert forall i :: 1 <= i < |orgs| ==> orgs[1..][i - 1] == orgs[i];
      match discover(org)
      case Bailed(Some(_)) => Halted(Exited(org))
      case Panicked => Halted(Crashed(org))
      case Exhausted => Halted(Hung(org))
      case _ =>
        if rest.Halted? then
          var k :| FirstStop(orgs[1..], discover, k) && rest.halt.org == orgs[1..][k];
          assert orgs[k + 1] == orgs[1..][k];
          assert FirstStop(orgs, discover, k + 1);
          rest
        else Ready(Contribution(discover(org)) + rest.work)
  }

  /** A ready work list is the concatenation of every organisation's listing, in order. */
  lemma {:induction false} WorkListConcatenates(orgs: seq<string>, discover: string -> Returned)
    requires WorkList(orgs, discover).Ready?
    ensures WorkList(orgs, discover).work
         == Flatten(seq(|orgs|, i requires 0 <= i < |orgs| => Contribution(discover(orgs[i]))))
    decreases |orgs|
  {
    var parts := seq(|orgs|, i requires 0 <= i < |orgs| => Contribution(discover(orgs[i])));
    if |orgs| > 0 {
      WorkListConcatenates(orgs[1..], discover);
      var tail := seq(|orgs[1..]|, i requires 0 <= i < |orgs[1..]| => Contribution(discover(orgs[1..][i])));
      assert parts[1..] == tail;
    }
  }

  /** Listing two groups of organisations in one run gives the first
      group's work list followed by the second's. */
  lemma {:induction false} WorkListAppend(orgs1: seq<string>, orgs2: seq<string>, discover: string -> Returned)
    requires WorkList(orgs1 + orgs2, discover).Ready?
    ensures WorkList(orgs1, discover).Ready? && WorkList(orgs2, discover).Ready?
    ensures WorkList(orgs1 + orgs2, discover).work == WorkList(orgs1, discover).work + WorkList(orgs2, discover).work
  {
    var orgs := orgs1 + orgs2;
    assert forall i :: 0 <= i < |orgs1| ==> orgs[i] == orgs1[i];
    assert forall i :: 0 <= i < |orgs2| ==> orgs[|orgs1| + i] == orgs2[i];
    WorkListConcatenates(orgs, discover);
    WorkListConcatenates(orgs1, discover);
    WorkListConcatenates(orgs2, discover);
    var parts1 := seq(|orgs1|, i requires 0 <= i < |orgs1| => Contribution(discover(orgs1[i])));
    var parts2 := seq(|orgs2|, i requires 0 <= i < |orgs2| => Contribution(discover(orgs2[i])));
    assert seq(|orgs|, i requires 0 <= i < |orgs| => Contribution(discover(orgs[i]))) == parts1 + parts2;
    FlattenAppend(parts1, parts2);
  }

  /** Discovery of one organisation by the corrected `ReposFor`. */
  function Discover(server: Server, token: string, fuel: nat): string -> Returned {
    org => ReposForChecked(org, token, server, fuel).result
  }

  /** With the corrected discovery the run goes on to dispatch exactly when
      every organisation's listing succeeded: a failed page stops the run
      instead of silently dropping that organisation's repositories. */
  lemma ReadyIffAllListed(orgs: seq<string>, server: Server, token: string, fuel: nat)
    ensures WorkList(orgs, Discover(server, token, fuel)).Ready?
        <==> forall i :: 0 <= i < |orgs| ==> Crawl(server, token, OrgUrl(orgs[i]), fuel).result.Listed?
  {
    var discover := Discover(server, token, fuel);
    forall i | 0 <= i < |orgs|
      ensures Proceeds(discover(orgs[i])) <==> Crawl(server, token, OrgUrl(orgs[i]), fuel).result.Listed?
    {
      var d := ReposForChecked(orgs[i], token, server, fuel);
      assert discover(orgs[i]) == d.result;
    }
  }

  /** The destination chosen at start-up; `NFS_SHARE` set means the share. */
  datatype Mode = ToBucket(basedir: string) | ToShare(share: string)

  function Base(mode: Mode): string {
    match mode
    case ToBucket(b) => b
    case ToShare(s) => s
  }

  /** The two paths a repository's pipeline may create or remove. */
  function PathsOf(mode: Mode, join: PathJoin, repo: string, st: Stages): set<string> {
    {RepoDir(join, Base(mode), repo), ArchivePath(join, Base(mode), repo, st.stamp)}
  }

  /** The pipeline a dispatched goroutine runs, as written: object-store
      mode uploads, share mode stores the archive in a file. Whatever it
      returns, it only changes its own two paths and what is below them, and
      it removes the repository directory unless that removal fails. */
  function Process(mode: Mode, fs: Fs, join: PathJoin, account: Account, repo: string, st: Stages): (r: Run)
    ensures var dir, zip := RepoDir(join, Base(mode), repo), ArchivePath(join, Base(mode), repo, st.stamp);
      && Only(fs, r.fs, PathsOf(mode, join, repo, st))
      && Gone(fs, r.fs, dir)
      && (!CloneOk(join, Base(mode), repo, account, st) ==> r.err.Some? && Only(fs, r.fs, {dir}))
      && (CloneOk(join, Base(mode), repo, account, st) && r.err.Some? ==> Gone(fs, r.fs, zip))
      && (mode.ToBucket? ==> forall q :: q in r.fs.existing ==> q in fs.existing || q in fs.stuck)
      && (mode.ToShare? && r.err.None? && !Under(zip, dir) ==> zip in r.fs.existing)
  {
    match mode
    case ToBucket(b) => StoreInBucket(fs, join, b, repo, account, st)
    case ToShare(s) => StoreInFile(fs, join, s, repo, account, st)
  }

  ghost function Touched(mode: Mode, join: PathJoin, work: seq<Repo>, stagesFor: string -> Stages): set<string>
    decreases |work|
  {
    if |work| == 0 then {}
    else PathsOf(mode, join, work[0].fullName, stagesFor(work[0].fullName))
         + Touched(mode, join, work[1..], stagesFor)
  }

  lemma {:induction false} TouchedMembers(mode: Mode, join: PathJoin, work: seq<Repo>, stagesFor: string -> Stages, p: string)
    ensures p in Touched(mode, join, work, stagesFor) <==>
      exists i :: 0 <= i < |work| && p in PathsOf(mode, join, work[i].fullName, stagesFor(work[i].fullName))
    decreases |work|
  {
    if |work| > 0 {
      TouchedMembers(mode, join, work[1..], stagesFor, p);
      if exists i :: 0 <= i < |work| && p in PathsOf(mode, join, work[i].fullName, stagesFor(work[i].fullName)) {
        var i :| 0 <= i < |work| && p in PathsOf(mode, join, work[i].fullName, stagesFor(work[i].fullName));
        if i > 0 {
          assert work[1..][i - 1] == work[i];
        }
      }
      if p in Touched(mode, join, work[1..], stagesFor) {
        var i :| 0 <= i < |work[1..]| && p in PathsOf(mode, join, work[1..][i].fullName, stagesFor(work[1..][i].fullName));
        assert work[1..][i] == work[i + 1];
      }
    }
  }

  datatype Attempt = Attempt(repo: string, err: Option<Error>)

  datatype Dispatched = Dispatched(fs: Fs, attempts: seq<Attempt>)

  /** What running one repository's pipeline does to the file system. */
  type Step = (Fs, string) -> Run

  /** The dispatch loop: every repository of the work list is attempted once,
      in order, whatever the earlier ones returned; a pipeline error is only
      logged. */
  function Dispatch(fs: Fs, work: seq<Repo>, step: Step): (d: Dispatched)
    ensures |d.attempts| == |work|
    ensures forall i :: 0 <= i < |work| ==> d.attempts[i].repo == work[i].fullName
    ensures |work| > 0 ==> d.attempts[0].err == step(fs, work[0].fullName).err
    decreases |work|
  {
    if |work| == 0 then Dispatched(fs, [])
    else
      var repo := work[0].fullName;
      var run := step(fs, repo);
      var rest := Dispatch(run.fs, work[1..], step);
      assert forall i :: 1 <= i < |work| ==> work[1..][i - 1] == work[i];
      Dispatched(rest.fs, [Attempt(repo, run.err)] + rest.attempts)
  }

  /** Each run of `step` changes only the two paths of the repository it is given. */
  ghost predicate Confined(step: Step, mode: Mode, join: PathJoin, stagesFor: string -> Stages) {
    forall fs: Fs, repo: string :: Only(fs, step(fs, repo).fs, PathsOf(mode, join, repo, stagesFor(repo)))
  }

  /** The pipeline of the chosen mode, for the repository it is given. */
  function Job(mode: Mode, join: PathJoin, account: Account, stagesFor: string -> Stages): Step {
    (fs: Fs, repo: string) => Process(mode, fs, join, account, repo, stagesFor(repo))
  }

  /** Each run of `step` removes its repository's directory unless that removal fails. */
  ghost predicate ClearsDir(step: Step, mode: Mode, join: PathJoin) {
    forall fs: Fs, repo: string :: Gone(fs, step(fs, repo).fs, RepoDir(join, Base(mode), repo))
  }

  /** Every run of the job changes only the paths of its own repository, and
      removes its directory unless that removal fails. */
  lemma JobConfined(mode: Mode, join: PathJoin, account: Account, stagesFor: string -> Stages)
    ensures Confined(Job(mode, join, account, stagesFor), mode, join, stagesFor)
    ensures ClearsDir(Job(mode, join, account, stagesFor), mode, join)
  {
  }

  /** One run of the job keeps a path outside its repository's paths. */
  lemma JobKeeps(mode: Mode, fs: Fs, join: PathJoin, account: Account, stagesFor: string -> Stages, repo: string, p: string)
    requires Outside(p, PathsOf(mode, join, repo, stagesFor(repo)))
    ensures p in Job(mode, join, account, stagesFor)(fs, repo).fs.existing <==> p in fs.existing
  {
    assert Job(mode, join, account, stagesFor)(fs, repo) == Process(mode, fs, join, account, repo, stagesFor(repo));
  }

  /** Dispatch changes no path outside the repositories' own, and never
      what can be removed. */
  lemma {:induction false} DispatchFrame(mode: Mode, fs: Fs, join: PathJoin, work: seq<Repo>,
                                         stagesFor: string -> Stages, step: Step)
    requires Confined(step, mode, join, stagesFor)
    ensures var d := Dispatch(fs, work, step);
      && d.fs.stuck == fs.stuck
      && forall p {:trigger Outside(p, Touched(mode, join, work, stagesFor))} ::
           Outside(p, Touched(mode, join, work, stagesFor)) ==> (p in d.fs.existing <==> p in fs.existing)
    decreases |work|
  {
    if |work| > 0 {
      var repo := work[0].fullName;
      var run := step(fs, repo);
      assert Only(fs, run.fs, PathsOf(mode, join, repo, stagesFor(repo)));
      DispatchFrame(mode, run.fs, join, work[1..], stagesFor, step);
      forall p | Outside(p, Touched(mode, join, work, stagesFor))
        ensures p in Dispatch(fs, work, step).fs.existing <==> p in fs.existing
      {
        assert Outside(p, PathsOf(mode, join, repo, stagesFor(repo)));
        assert Outside(p, Touched(mode, join, work[1..], stagesFor));
      }
    }
  }

  /** Dispatching the job keeps a path outside every dispatched repository's paths. */
  lemma DispatchKeeps(mode: Mode, fs: Fs, join: PathJoin, account: Account, work: seq<Repo>,
                      stagesFor: string -> Stages, p: string)
    requires Outside(p, Touched(mode, join, work, stagesFor))
    ensures p in Dispatch(fs, work, Job(mode, join, account, stagesFor)).fs.existing <==> p in fs.existing
  {
    JobConfined(mode, join, account, stagesFor);
    DispatchFrame(mode, fs, join, work, stagesFor, Job(mode, join, account, stagesFor));
  }

  /** Dispatching two work lists one after the other is dispatching their
      concatenation: no failure in the first part cuts the second short. */
  lemma {:induction false} DispatchSequential(fs: Fs, first: seq<Repo>, second: seq<Repo>, step: Step)
    ensures var d1 := Dispatch(fs, first, step);
      var d2 := Dispatch(d1.fs, second, step);
      Dispatch(fs, first + second, step) == Dispatched(d2.fs, d1.attempts + d2.attempts)
    decreases |first|
  {
    if |first| == 0 {
      assert first + second == second;
      var d2 := Dispatch(fs, second, step);
      assert [] + d2.attempts == d2.attempts;
    } else {
      var whole := first + second;
      var run := step(fs, first[0].fullName);
      var a := Attempt(first[0].fullName, run.err);
      assert whole[0] == first[0];
      assert whole[1..] == first[1..] + second;
      DispatchSequential(run.fs, first[1..], second, step);
      var r1 := Dispatch(run.fs, first[1..], step);
      var r2 := Dispatch(r1.fs, second, step);
      assert [a] + (r1.attempts + r2.attempts) == ([a] + r1.attempts) + r2.attempts;
    }
  }

  /** The `i`-th attempt reports what the step returns on the file system
      the attempts before it left behind. */
  lemma DispatchAttempt(fs: Fs, work: seq<Repo>, step: Step, i: nat)
    requires i < |work|
    ensures Dispatch(fs, work, step).attempts[i].err == step(Dispatch(fs, work[..i], step).fs, work[i].fullName).err
  {
    assert work[..i] + work[i..] == work;
    DispatchSequential(fs, work[..i], work[i..], step);
    var d1 := Dispatch(fs, work[..i], step);
    var d2 := Dispatch(d1.fs, work[i..], step);
    assert work[i..][0] == work[i];
    assert (d1.attempts + d2.attempts)[i] == d2.attempts[0];
  }

  /** No path of `a` is at or below a path of `b`, nor the other way round. */
  ghost predicate Apart(a: set<string>, b: set<string>) {
    forall x, y :: x in a && y in b ==> !Under(x, y) && !Under(y, x)
  }

  /** Different repositories stage in disjoint subtrees, and none of their
      paths is one whose removal fails. */
  ghost predicate Separate(mode: Mode, fs: Fs, join: PathJoin, work: seq<Repo>, stagesFor: string -> Stages) {
    && (forall i, j :: 0 <= i < j < |work| ==>
          Apart(PathsOf(mode, join, work[i].fullName, stagesFor(work[i].fullName)),
                PathsOf(mode, join, work[j].fullName, stagesFor(work[j].fullName))))
    && (forall i :: 0 <= i < |work| ==> PathsOf(mode, join, work[i].fullName, stagesFor(work[i].fullName)) !! fs.stuck)
  }

  lemma SeparateTail(mode: Mode, fs: Fs, fs': Fs, join: PathJoin, work: seq<Repo>, stagesFor: string -> Stages)
    requires |work| > 0 && Separate(mode, fs, join, work, stagesFor) && fs'.stuck == fs.stuck
    ensures Separate(mode, fs', join, work[1..], stagesFor)
    ensures forall p :: p in PathsOf(mode, join, work[0].fullName, stagesFor(work[0].fullName)) ==>
      Outside(p, Touched(mode, join, work[1..], stagesFor))
    ensures forall i, p :: 1 <= i < |work| && p in PathsOf(mode, join, work[i].fullName, stagesFor(work[i].fullName)) ==>
      Outside(p, PathsOf(mode, join, work[0].fullName, stagesFor(work[0].fullName)))
  {
    var first := PathsOf(mode, join, work[0].fullName, stagesFor(work[0].fullName));
    forall p, t | p in first && t in Touched(mode, join, work[1..], stagesFor)
      ensures !Under(p, t)
    {
      TouchedMembers(mode, join, work[1..], stagesFor, t);
      var i :| 0 <= i < |work[1..]| && t in PathsOf(mode, join, work[1..][i].fullName, stagesFor(work[1..][i].fullName));
      assert work[1..][i] == work[i + 1];
      assert Apart(first, PathsOf(mode, join, work[i + 1].fullName, stagesFor(work[i + 1].fullName)));
    }
    forall i, j | 0 <= i < j < |work[1..]|
      ensures Apart(PathsOf(mode, join, work[1..][i].fullName, stagesFor(work[1..][i].fullName)),
                    PathsOf(mode, join, work[1..][j].fullName, stagesFor(work[1..][j].fullName)))
    {
      assert work[1..][i] == work[i + 1] && work[1..][j] == work[j + 1];
    }
  }

  /** A dispatch whose steps each clear their own directory leaves no
      repository directory behind, whatever the steps return. */
  lemma {:induction false} DispatchClearsDirs(mode: Mode, fs: Fs, join: PathJoin, work: seq<Repo>,
                                              stagesFor: string -> Stages, step: Step)
    requires Confined(step, mode, join, stagesFor) && ClearsDir(step, mode, join)
    requires Separate(mode, fs, join, work, stagesFor)
    ensures forall i :: 0 <= i < |work| ==> RepoDir(join, Base(mode), work[i].fullName) !in Dispatch(fs, work, step).fs.existing
    decreases |work|
  {
    if |work| > 0 {
      var repo := work[0].fullName;
      var run := step(fs, repo);
      var d := Dispatch(fs, work, step);
      assert d.fs == Dispatch(run.fs, work[1..], step).fs;
      assert Only(fs, run.fs, PathsOf(mode, join, repo, stagesFor(repo)));
      SeparateTail(mode, fs, run.fs, join, work, stagesFor);
      DispatchClearsDirs(mode, run.fs, join, work[1..], stagesFor, step);
      DispatchFrame(mode, run.fs, join, work[1..], stagesFor, step);
      var dir := RepoDir(join, Base(mode), repo);
      assert dir in PathsOf(mode, join, repo, stagesFor(repo));
      assert Gone(fs, run.fs, dir);
      assert forall i :: 1 <= i < |work| ==> work[1..][i - 1] == work[i];
    }
  }

  /** Object-store mode leaves no working directory and no archive behind:
      after the run, no repository's directory exists, and an archive path
      exists only if it existed before the run. */
  lemma {:induction false} BucketLeavesNothingBehind(basedir: string, fs: Fs, join: PathJoin, account: Account,
                                                     work: seq<Repo>, stagesFor: string -> Stages)
    requires Separate(ToBucket(basedir), fs, join, work, stagesFor)
    ensures var d := Dispatch(fs, work, Job(ToBucket(basedir), join, account, stagesFor));
      && (forall i :: 0 <= i < |work| ==> RepoDir(join, basedir, work[i].fullName) !in d.fs.existing)
      && (forall i :: 0 <= i < |work| ==>
            var zip := ArchivePath(join, basedir, work[i].fullName, stagesFor(work[i].fullName).stamp);
            zip in d.fs.existing ==> zip in fs.existing)
    decreases |work|
  {
    var mode := ToBucket(basedir);
    if |work| > 0 {
      var step := Job(mode, join, account, stagesFor);
      var repo := work[0].fullName;
      var st := stagesFor(repo);
      var run := Process(mode, fs, join, account, repo, st);
      assert run == step(fs, repo);
      var d := Dispatch(fs, work, step);
      assert d == Dispatch(run.fs, work[1..], step).(attempts := d.attempts);
      SeparateTail(mode, fs, run.fs, join, work, stagesFor);
      BucketLeavesNothingBehind(basedir, run.fs, join, account, work[1..], stagesFor);
      var dir, zip := RepoDir(join, basedir, repo), ArchivePath(join, basedir, repo, st.stamp);
      assert dir in PathsOf(mode, join, repo, st) && zip in PathsOf(mode, join, repo, st);
      DispatchKeeps(mode, run.fs, join, account, work[1..], stagesFor, dir);
      DispatchKeeps(mode, run.fs, join, account, work[1..], stagesFor, zip);
      forall i | 1 <= i < |work|
        ensures var zip := ArchivePath(join, basedir, work[i].fullName, stagesFor(work[i].fullName).stamp);
          zip in d.fs.existing ==> zip in fs.existing
      {
        var zip := ArchivePath(join, basedir, work[i].fullName, stagesFor(work[i].fullName).stamp);
        assert work[1..][i - 1] == work[i];
        assert zip in PathsOf(mode, join, work[i].fullName, stagesFor(work[i].fullName));
        JobKeeps(mode, fs, join, account, stagesFor, repo, zip);
      }
    }
  }

  /** Share-mode staging paths that removal can clear: neither path is one
      whose removal fails, and the archive is not inside the directory. */
  ghost predicate Clearable(share: string, join: PathJoin, stagesFor: string -> Stages, fs: Fs, repo: string) {
    && PathsOf(ToShare(share), join, repo, stagesFor(repo)) !! fs.stuck
    && !Under(ArchivePath(join, share, repo, stagesFor(repo).stamp), RepoDir(join, share, repo))
  }

  /** The outcome of one share-mode pipeline as written: the directory is
      gone, and the archive is on the share exactly when nil was returned,
      or when it was there before a clone that failed. */
  ghost predicate Stored(share: string, join: PathJoin, account: Account, stagesFor: string -> Stages,
                         fs: Fs, repo: string, run: Run) {
    var zip := ArchivePath(join, share, repo, stagesFor(repo).stamp);
    && run.fs.stuck == fs.stuck
    && RepoDir(join, share, repo) !in run.fs.existing
    && (run.err.None? ==> zip in run.fs.existing)
    && (zip in run.fs.existing ==> run.err.None? || (zip in fs.existing && !CloneOk(join, share, repo, account, stagesFor(repo))))
  }

  lemma ShareStep(share: string, fs: Fs, join: PathJoin, account: Account, stagesFor: string -> Stages, repo: string)
    requires Clearable(share, join, stagesFor, fs, repo)
    ensures Stored(share, join, account, stagesFor, fs, repo, Job(ToShare(share), join, account, stagesFor)(fs, repo))
  {
    var st := stagesFor(repo);
    var run := Process(ToShare(share), fs, join, account, repo, st);
    assert Job(ToShare(share), join, account, stagesFor)(fs, repo) == run;
    var zip := ArchivePath(join, share, repo, st.stamp);
    assert RepoDir(join, share, repo) in PathsOf(ToShare(share), join, repo, st);
    assert zip in PathsOf(ToShare(share), join, repo, st);
  }

  /** Dispatch keeps a path that lies outside every dispatched repository's paths. */
  lemma DispatchKeepsPath(mode: Mode, fs: Fs, join: PathJoin, work: seq<Repo>, stagesFor: string -> Stages,
                          step: Step, p: string)
    requires Confined(step, mode, join, stagesFor)
    requires Outside(p, Touched(mode, join, work, stagesFor))
    ensures p in Dispatch(fs, work, step).fs.existing <==> p in fs.existing
  {
    DispatchFrame(mode, fs, join, work, stagesFor, step);
  }

  /** The archive-keeping property of a dispatch at the `i`-th repository,
      for any step that behaves like one share-mode pipeline on every
      repository: its archive is on the share if nil was returned for it,
      and otherwise only if it was there before a failed clone. */
  lemma {:induction false} DispatchKeepsArchive(share: string, fs: Fs, join: PathJoin, account: Account,
                                                work: seq<Repo>, stagesFor: string -> Stages, step: Step, i: nat)
    requires Confined(step, ToShare(share), join, stagesFor)
    requires forall fs': Fs, repo: string {:trigger Clearable(share, join, stagesFor, fs', repo)} ::
      Clearable(share, join, stagesFor, fs', repo) ==> Stored(share, join, account, stagesFor, fs', repo, step(fs', repo))
    requires Separate(ToShare(share), fs, join, work, stagesFor)
    requires forall k :: 0 <= k < |work| ==>
      !Under(ArchivePath(join, share, work[k].fullName, stagesFor(work[k].fullName).stamp), RepoDir(join, share, work[k].fullName))
    requires i < |work|
    ensures var d := Dispatch(fs, work, step);
      var zip := ArchivePath(join, share, work[i].fullName, stagesFor(work[i].fullName).stamp);
      && (d.attempts[i].err.None? ==> zip in d.fs.existing)
      && (zip in d.fs.existing ==>
            d.attempts[i].err.None?
            || (zip in fs.existing && !CloneOk(join, share, work[i].fullName, account, stagesFor(work[i].fullName))))
    decreases i
  {
    var mode := ToShare(share);
    var repo := work[0].fullName;
    var st := stagesFor(repo);
    var run := step(fs, repo);
    var d := Dispatch(fs, work, step);
    var rest := Dispatch(run.fs, work[1..], step);
    assert d.fs == rest.fs && d.attempts == [Attempt(repo, run.err)] + rest.attempts;
    assert Only(fs, run.fs, PathsOf(mode, join, repo, st));
    SeparateTail(mode, fs, run.fs, join, work, stagesFor);
    if i == 0 {
      var zip := ArchivePath(join, share, repo, st.stamp);
      assert Clearable(share, join, stagesFor, fs, repo);
      assert zip in PathsOf(mode, join, repo, st);
      DispatchKeepsPath(mode, run.fs, join, work[1..], stagesFor, step, zip);
    } else {
      assert work[1..][i - 1] == work[i];
      assert forall k :: 1 <= k < |work| ==> work[1..][k - 1] == work[k];
      DispatchKeepsArchive(share, run.fs, join, account, work[1..], stagesFor, step, i - 1);
      var zip := ArchivePath(join, share, work[i].fullName, stagesFor(work[i].fullName).stamp);
      assert d.attempts[i] == rest.attempts[i - 1];
      assert zip in PathsOf(mode, join, work[i].fullName, stagesFor(work[i].fullName));
      assert Outside(zip, PathsOf(mode, join, repo, st));
    }
  }

  /** Share mode, as written, keeps exactly the archives of successful
      backups: after the run no repository directory remains; the archive
      of every repository whose pipeline returned nil is on the share; and
      any other archive on the share was already there before a clone that
      failed. */
  lemma ShareKeepsSuccessfulArchives(share: string, fs: Fs, join: PathJoin, account: Account,
                                     work: seq<Repo>, stagesFor: string -> Stages)
    requires Separate(ToShare(share), fs, join, work, stagesFor)
    requires forall i :: 0 <= i < |work| ==>
      !Under(ArchivePath(join, share, work[i].fullName, stagesFor(work[i].fullName).stamp), RepoDir(join, share, work[i].fullName))
    ensures var d := Dispatch(fs, work, Job(ToShare(share), join, account, stagesFor));
      && (forall i :: 0 <= i < |work| ==> RepoDir(join, share, work[i].fullName) !in d.fs.existing)
      && (forall i :: 0 <= i < |work| ==>
            var zip := ArchivePath(join, share, work[i].fullName, stagesFor(work[i].fullName).stamp);
            && (d.attempts[i].err.None? ==> zip in d.fs.existing)
            && (zip in d.fs.existing ==>
                  d.attempts[i].err.None?
                  || (zip in fs.existing && !CloneOk(join, share, work[i].fullName, account, stagesFor(work[i].fullName)))))
  {
    var step := Job(ToShare(share), join, account, stagesFor);
    JobConfined(ToShare(share), join, account, stagesFor);
    forall fs': Fs, repo: string | Clearable(share, join, stagesFor, fs', repo)
      ensures Stored(share, join, account, stagesFor, fs', repo, step(fs', repo))
    {
      ShareStep(share, fs', join, account, stagesFor, repo);
    }
    DispatchClearsDirs(ToShare(share), fs, join, work, stagesFor, step);
    forall i | 0 <= i < |work|
      ensures var zip := ArchivePath(join, share, work[i].fullName, stagesFor(work[i].fullName).stamp);
        var d := Dispatch(fs, work, step);
        && (d.attempts[i].err.None? ==> zip in d.fs.existing)
        && (zip in d.fs.existing ==>
              d.attempts[i].err.None?
              || (zip in fs.existing && !CloneOk(join, share, work[i].fullName, account, stagesFor(work[i].fullName))))
    {
      DispatchKeepsArchive(share, fs, join, account, work, stagesFor, step, i);
    }
  }

  datatype Finish = Finish(fs: Fs, startup: Startup, attempts: seq<Attempt>)

  /** The file system after the start-up clean-up, which only share mode does. */
  function Cleaned(mode: Mode, fs: Fs, orgs: seq<string>): Fs {
    if mode.ToShare? then StartupCleanup(fs, mode.share, orgs) else fs
  }

  /** `main` after configuration: in share mode clear the organisations'
      directories, then list every organisation, then dispatch the work
      list, or stop before dispatching anything. A halted start leaves the
      file system as the clean-up left it; a ready one attempts every
      repository once, in order, each attempt reporting what its pipeline
      returned on the file system the earlier ones left, and changes no
      path outside the repositories' own. */
  function BackupRun(mode: Mode, orgNames: string, fs: Fs, join: PathJoin, account: Account,
                     discover: string -> Returned, stagesFor: string -> Stages): (r: Finish)
    ensures r.startup == WorkList(Orgs(orgNames), discover)
    ensures r.startup.Halted? ==> r.attempts == [] && r.fs == Cleaned(mode, fs, Orgs(orgNames))
    ensures r.startup.Ready? ==> |r.attempts| == |r.startup.work|
    ensures r.startup.Ready? ==> forall i :: 0 <= i < |r.attempts| ==>
      (&& r.attempts[i].repo == r.startup.work[i].fullName
       && r.attempts[i].err == Process(mode, Dispatch(Cleaned(mode, fs, Orgs(orgNames)), r.startup.work[..i],
                                                      Job(mode, join, account, stagesFor)).fs,
                                       join, account, r.startup.work[i].fullName, stagesFor(r.startup.work[i].fullName)).err)
    ensures r.startup.Ready? ==> (r.fs.stuck == fs.stuck
      && forall p {:trigger Outside(p, Touched(mode, join, r.startup.work, stagesFor))} ::
           Outside(p, Touched(mode, join, r.startup.work, stagesFor)) ==>
             (p in r.fs.existing <==> p in Cleaned(mode, fs, Orgs(orgNames)).existing))
  {
    var orgs := Orgs(orgNames);
    var cleaned := Cleaned(mode, fs, orgs);
    var startup := WorkList(orgs, discover);
    match startup
    case Halted(_) => Finish(cleaned, startup, [])
    case Ready(work) =>
      var step := Job(mode, join, account, stagesFor);
      var d := Dispatch(cleaned, work, step);
      JobConfined(mode, join, account, stagesFor);
      DispatchFrame(mode, cleaned, join, work, stagesFor, step);
      forall i | 0 <= i < |work|
        ensures d.attempts[i].err
             == Process(mode, Dispatch(cleaned, work[..i], step).fs, join, account, work[i].fullName, stagesFor(work[i].fullName)).err
      {
        DispatchAttempt(cleaned, work, step, i);
      }
      Finish(d.fs, startup, d.attempts)
  }

  /** Object-store mode, for the whole run: when the repositories' paths
      are apart and removable, no repository directory remains and no
      archive exists that did not exist at start. */
  lemma BucketRunLeavesNothingBehind(basedir: string, orgNames: string, fs: Fs, join: PathJoin, account: Account,
                                     discover: string -> Returned, stagesFor: string -> Stages)
    requires WorkList(Orgs(orgNames), discover).Ready?
    requires Separate(ToBucket(basedir), fs, join, WorkList(Orgs(orgNames), discover).work, stagesFor)
    ensures var r, work := BackupRun(ToBucket(basedir), orgNames, fs, join, account, discover, stagesFor),
                          WorkList(Orgs(orgNames), discover).work;
      && (forall i :: 0 <= i < |work| ==> RepoDir(join, basedir, work[i].fullName) !in r.fs.existing)
      && (forall i :: 0 <= i < |work| ==>
            var zip := ArchivePath(join, basedir, work[i].fullName, stagesFor(work[i].fullName).stamp);
            zip in r.fs.existing ==> zip in fs.existing)
  {
    BucketLeavesNothingBehind(basedir, fs, join, account, WorkList(Orgs(orgNames), discover).work, stagesFor);
  }

  /** Share mode as written, for the whole run from the cleaned share: when
      the repositories' paths are apart and removable and no archive lies
      inside its `repodir`, no repository directory remains, the archive of
      every nil attempt is on the share, and any other archive survived the
      clean-up and preceded a clone that failed. */
  lemma ShareRunKeepsSuccessfulArchives(share: string, orgNames: string, fs: Fs, join: PathJoin, account: Account,
                                        discover: string -> Returned, stagesFor: string -> Stages)
    requires WorkList(Orgs(orgNames), discover).Ready?
    requires Separate(ToShare(share), StartupCleanup(fs, share, Orgs(orgNames)), join,
                      WorkList(Orgs(orgNames), discover).work, stagesFor)
    requires var work := WorkList(Orgs(orgNames), discover).work;
      forall i :: 0 <= i < |work| ==>
        !Under(ArchivePath(join, share, work[i].fullName, stagesFor(work[i].fullName).stamp), RepoDir(join, share, work[i].fullName))
    ensures var r, work := BackupRun(ToShare(share), orgNames, fs, join, account, discover, stagesFor),
                          WorkList(Orgs(orgNames), discover).work;
      var cleaned := StartupCleanup(fs, share, Orgs(orgNames));
      && (forall i :: 0 <= i < |work| ==> RepoDir(join, share, work[i].fullName) !in r.fs.existing)
      && (forall i :: 0 <= i < |work| ==>
            var zip := ArchivePath(join, share, work[i].fullName, stagesFor(work[i].fullName).stamp);
            && (r.attempts[i].err.None? ==> zip in r.fs.existing)
            && (zip in r.fs.existing ==>
                  r.attempts[i].err.None?
                  || (zip in cleaned.existing && !CloneOk(join, share, work[i].fullName, account, stagesFor(work[i].fullName)))))
  {
    ShareKeepsSuccessfulArchives(share, StartupCleanup(fs, share, Orgs(orgNames)), join, account,
                                 WorkList(Orgs(orgNames), discover).work, stagesFor);
  }
}
