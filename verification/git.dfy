/**
 pkg/git/git.go: `CloneRepo` decides where and how to clone; the clone
 itself (go-git's `PlainClone`) is a collaborator whose outcome is the
 `transport` parameter. `filepath.Join` is the `join` parameter, so
 nothing here depends on how it cleans paths.
 */
module Git {
  import opened Errors
  import opened Strings

  type PathJoin = (string, string) -> string

  datatype CloneOptions = CloneOptions(url: string, depth: nat, username: string, password: string)

  /** Either the target path was refused before cloning, or a shallow clone
      with these options was attempted and ended with `err`. */
  datatype Clone =
    | Rejected(path: string)
    | Attempted(path: string, options: CloneOptions, err: Option<Error>)
  {
    /** The error `CloneRepo` returns. */
    function Err(): Option<Error> {
      match this
      case Rejected(p) => Some(Bogus(p))
      case Attempted(_, _, e) => e
    }
  }

  /** `CloneRepo(basedir, repo, username, password)` */
  function CloneRepo(join: PathJoin, basedir: string, repo: string, username: string, password: string,
                     transport: Option<Error>): (c: Clone)
    ensures c.path == join(basedir, repo)
    ensures c.Rejected? <==> exists i :: OccursAt(join(basedir, repo), "..", i)
    ensures c.Attempted? ==> c.options == CloneOptions("https://github.com/" + repo, 1, username, password)
    ensures c.Err().None? <==> c.Attempted? && transport.None?
    ensures c.Attempted? ==> c.err == transport
  {
    var p := join(basedir, repo);
    ContainsIff(p, "..");
    if Contains(p, "..") then Rejected(p)
    else Attempted(p, CloneOptions("https://github.com/" + repo, 1, username, password), transport)
  }

  /** The path check comes first: a refused path gives the same result
      whatever the clone would have done, so no clone is attempted. */
  lemma RejectionPrecedesClone(join: PathJoin, basedir: string, repo: string, username: string, password: string,
                               t1: Option<Error>, t2: Option<Error>)
    requires CloneRepo(join, basedir, repo, username, password, t1).Rejected?
    ensures CloneRepo(join, basedir, repo, username, password, t1) == CloneRepo(join, basedir, repo, username, password, t2)
    ensures CloneRepo(join, basedir, repo, username, password, t1).Err() == Some(Bogus(join(basedir, repo)))
  {
  }

  /** The check is plain substring containment: when the joined path keeps
      the repository name at its end, any `..` inside the name, even one in
      the middle of a component as in `a/b..c`, refuses the clone. */
  lemma {:induction false} DotsInNameRejected(join: PathJoin, basedir: string, repo: string, username: string,
                                              password: string, transport: Option<Error>, i: int)
    requires HasSuffix(join(basedir, repo), repo)
    requires OccursAt(repo, "..", i)
    ensures CloneRepo(join, basedir, repo, username, password, transport).Rejected?
  {
    var p := join(basedir, repo);
    var off := |p| - |repo|;
    assert p[off..] == repo;
    assert p[off + i..off + i + 2] == repo[i..i + 2];
    assert OccursAt(p, "..", off + i);
  }
}
