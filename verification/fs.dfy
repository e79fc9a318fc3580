/**
 The part of the file system the backup job creates and deletes: a set of
 existing paths, compared as strings. A path in `stuck` is one whose
 `os.RemoveAll` fails (permissions, a busy mount) and then removes nothing;
 every other removal deletes the path and everything below it, and
 removing an absent path succeeds, as `os.RemoveAll` does.
 */
module Fs {
  import opened Errors
  import opened Strings

  datatype Fs = Fs(existing: set<string>, stuck: set<string>)

  datatype Removal = Removal(fs: Fs, err: Option<Error>)

  /** `p` as a directory prefix: with exactly one trailing slash added unless it has one. */
  function AsDir(p: string): string {
    if HasSuffix(p, "/") then p else p + "/"
  }

  /** `q` is `p` or lies below it. */
  predicate Under(q: string, p: string) {
    q == p || HasPrefix(q, AsDir(p))
  }

  /** No path of `roots` is `p` or above it. */
  ghost predicate Outside(p: string, roots: set<string>) {
    forall t :: t in roots ==> !Under(p, t)
  }

  /** A collaborator created `p` (a clone directory, an archive file). */
  function Create(fs: Fs, p: string): (r: Fs)
    ensures p in r.existing && r.stuck == fs.stuck
    ensures forall q :: q != p ==> (q in r.existing <==> q in fs.existing)
  {
    fs.(existing := fs.existing + {p})
  }

  /** `os.RemoveAll(p)`: only `p` and what lies below it are affected; they
      are gone afterwards unless the removal fails, which is then the
      reported error. */
  function RemoveAll(fs: Fs, p: string): (r: Removal)
    ensures r.fs.stuck == fs.stuck
    ensures forall q :: q in r.fs.existing <==> q in fs.existing && (p in fs.stuck || !Under(q, p))
    ensures p in r.fs.existing <==> p in fs.existing && p in fs.stuck
    ensures r.err.Some? <==> p in r.fs.existing
  {
    if p in fs.stuck then
      Removal(fs, if p in fs.existing then Some(Io("cannot remove " + p)) else None)
    else
      Removal(fs.(existing := set q | q in fs.existing && !Under(q, p)), None)
  }

  /** Removing what was just created, with nothing below it, restores the file system. */
  lemma RemoveAllUndoesCreate(fs: Fs, p: string)
    requires p !in fs.stuck
    requires forall q :: q in fs.existing ==> !Under(q, p)
    ensures RemoveAll(Create(fs, p), p) == Removal(fs, None)
  {
    var r := RemoveAll(Create(fs, p), p);
    assert r.fs.existing == fs.existing;
  }

  /** A second removal of the same path changes nothing. */
  lemma {:induction false} RemoveAllIdempotent(fs: Fs, p: string)
    ensures RemoveAll(RemoveAll(fs, p).fs, p).fs == RemoveAll(fs, p).fs
  {
    var once := RemoveAll(fs, p).fs;
    var twice := RemoveAll(once, p).fs;
    assert forall q :: q in twice.existing <==> q in once.existing;
  }

  /** `rm(entries)` of main.go: removes every entry in turn, logging and
      otherwise ignoring a failed removal, so a failure neither stops the
      removals after it nor is returned. A path survives exactly when every
      entry at or above it is one whose removal fails. */
  function Rm(fs: Fs, entries: seq<string>): (r: Fs)
    ensures r.stuck == fs.stuck
    ensures forall q :: q in r.existing <==>
      q in fs.existing && forall i :: 0 <= i < |entries| && Under(q, entries[i]) ==> entries[i] in fs.stuck
    ensures forall e :: e in entries && e !in fs.stuck ==> e !in r.existing
    decreases |entries|
  {
    if |entries| == 0 then fs
    else
      assert forall i :: 1 <= i < |entries| ==> entries[1..][i - 1] == entries[i];
      Rm(RemoveAll(fs, entries[0]).fs, entries[1..])
  }

  /** Removing two lists of entries one after the other is removing their
      concatenation: no failed removal cuts the later ones short. */
  lemma {:induction false} RmSequential(fs: Fs, first: seq<string>, second: seq<string>)
    ensures Rm(fs, first + second) == Rm(Rm(fs, first), second)
  {
    var whole, parts := Rm(fs, first + second), Rm(Rm(fs, first), second);
    forall q ensures q in whole.existing <==> q in parts.existing {
      if q in fs.existing {
        assert (forall i :: 0 <= i < |first + second| && Under(q, (first + second)[i]) ==> (first + second)[i] in fs.stuck)
           <==> ((forall i :: 0 <= i < |first| && Under(q, first[i]) ==> first[i] in fs.stuck)
                 && (forall i :: 0 <= i < |second| && Under(q, second[i]) ==> second[i] in fs.stuck))
        by {
          forall i | 0 <= i < |first| ensures (first + second)[i] == first[i] { }
          forall i | 0 <= i < |second| ensures (first + second)[|first| + i] == second[i] { }
        }
      }
    }
    assert whole.existing == parts.existing;
  }
}
