/**
 pkg/zippings: the archive's file name and which walked paths become zip
 entries under which names. The zip codec and the byte copying are
 collaborators: each stored file's open/create/copy outcome is an input.
 */
module Zippings {
  import opened Errors
  import opened Strings
  import opened Walks

  /** `strings.ReplaceAll(s, "/", "_")` */
  function Unslash(s: string): string {
    ReplaceChar(s, '/', '_')
  }

  /** The name of the archive of `repo` made at minute `stamp` (Go formats
      it as `2006_01_02_15_04`): every slash of the `repo` and of the stamp
      becomes an underscore, so the name is one path component. */
  function FilenameFor(repo: string, stamp: string): (name: string)
    ensures name == "ghbackup_" + Unslash(repo) + "_" + Unslash(stamp) + ".zip"
    ensures '/' !in stamp ==> name == "ghbackup_" + Unslash(repo) + "_" + stamp + ".zip"
    ensures '/' !in name
    ensures HasPrefix(name, "ghbackup_") && HasSuffix(name, ".zip")
    ensures |name| == |repo| + |stamp| + 14
  {
    UnslashParts("ghbackup_", repo, "_", stamp, ".zip");
    UnslashPlain(stamp);
    var name := Unslash("ghbackup_" + repo + "_" + stamp + ".zip");
    assert forall i :: 0 <= i < |name| ==> name[i] != '/';
    name
  }

  /** A string without slashes is left as it is. */
  lemma UnslashPlain(s: string)
    ensures '/' !in s ==> Unslash(s) == s
  {
    var u := Unslash(s);
    assert |u| == |s|;
    if '/' !in s {
      assert forall i :: 0 <= i < |s| ==> u[i] == s[i];
    }
  }

  /** Replacing slashes around three slash-free constant parts. */
  lemma UnslashParts(p: string, q: string, r: string, s: string, t: string)
    requires '/' !in p && '/' !in r && '/' !in t
    ensures Unslash(p + q + r + s + t) == p + Unslash(q) + r + Unslash(s) + t
  {
    UnslashPlain(p);
    UnslashPlain(r);
    UnslashPlain(t);
    ReplaceCharConcat(p + q + r + s, t, '/', '_');
    ReplaceCharConcat(p + q + r, s, '/', '_');
    ReplaceCharConcat(p + q, r, '/', '_');
    ReplaceCharConcat(p, q, '/', '_');
  }

  /** Do not put the archive into itself: a walked path is skipped when the
      archive path ends with it. */
  function ShouldBeSkipped(archive: string, file: string): (skip: bool)
    ensures skip <==> |file| <= |archive| && forall i :: 0 <= i < |file| ==> file[i] == archive[|archive| - |file| + i]
    ensures file == archive ==> skip
  {
    HasSuffix(archive, file)
  }

  /** The entry name of a walked file: the path with a leading `src + "/"`
      removed, and unchanged when it does not start with that. */
  function EntryName(src: string, file: string): (name: string)
    ensures HasPrefix(file, src + "/") ==> src + "/" + name == file
    ensures !HasPrefix(file, src + "/") ==> name == file
  {
    TrimPrefix(file, src + "/")
  }

  /** A file below the walked root is stored under its path relative to the root. */
  lemma EntryNameOfChild(src: string, rel: string)
    ensures EntryName(src, src + "/" + rel) == rel
  {
    assert HasPrefix(src + "/" + rel, src + "/");
    assert (src + "/" + rel)[|src + "/"|..] == rel;
  }

  /** What happened when one selected file was stored: `os.Open` of the file,
      `zipWriter.Create` of its entry, or `io.Copy` of its bytes failed. */
  datatype Copy = Copied | OpenFailed(err: Error) | CreateFailed(err: Error) | CopyFailed(err: Error)

  /** The result of `CompressIt`: whether the archive file was created, the
      entries whose bytes were fully stored, and the returned error. */
  datatype Compression = Compression(created: bool, stored: seq<string>, err: Option<Error>)

  /** The callback stores a visit when it is neither the archive itself nor a directory. */
  predicate Selected(archive: string, v: Visit) {
    !ShouldBeSkipped(archive, v.path) && !v.isDir
  }

  /** The error the walk callback returns for one visit, if any. */
  function Failure(archive: string, v: Visit, copy: string -> Copy): Option<Error> {
    if v.err.Some? then v.err
    else if !Selected(archive, v) then None
    else match copy(v.path)
      case Copied => None
      case OpenFailed(e) => Some(e)
      case CreateFailed(e) => Some(e)
      case CopyFailed(e) => Some(e)
  }

  /** Reference definition: the entry names of the selected visits, in walk order. */
  ghost function EntriesOf(src: string, archive: string, walk: seq<Visit>): seq<string>
    decreases |walk|
  {
    if |walk| == 0 then []
    else
      var last := walk[|walk| - 1];
      EntriesOf(src, archive, walk[..|walk| - 1])
      + (if Selected(archive, last) then [EntryName(src, last.path)] else [])
  }

  /** `CompressIt(src, archive)`: create the archive (its failure is
      `createErr`), then store the selected visits of `walk` until the first
      visit whose callback fails; that error is returned. */
  method CompressIt(src: string, archive: string, createErr: Option<Error>,
                    walk: seq<Visit>, copy: string -> Copy)
    returns (c: Compression)
    ensures c.created <==> createErr.None?
    ensures createErr.Some? ==> c.err == createErr && c.stored == []
    ensures createErr.None? && c.err.None? ==>
      (forall i :: 0 <= i < |walk| ==> Failure(archive, walk[i], copy).None?)
    ensures createErr.None? && c.err.Some? ==>
      exists k :: 0 <= k < |walk| && c.err == Failure(archive, walk[k], copy)
        && (forall j :: 0 <= j < k ==> Failure(archive, walk[j], copy).None?)
        && c.stored == EntriesOf(src, archive, walk[..k])
    ensures c.err.None? ==> c.stored == EntriesOf(src, archive, walk)
  {
    if createErr.Some? {
      return Compression(false, [], createErr);
    }
    var stored: seq<string> := [];
    var i := 0;
    while i < |walk|
      invariant 0 <= i <= |walk|
      invariant forall j :: 0 <= j < i ==> Failure(archive, walk[j], copy).None?
      invariant stored == EntriesOf(src, archive, walk[..i])
    {
      var v := walk[i];
      var f := Failure(archive, v, copy);
      if f.Some? {
        return Compression(true, stored, f);
      }
      assert walk[..i + 1][..i] == walk[..i];
      if Selected(archive, v) {
        stored := stored + [EntryName(src, v.path)];
      }
      i := i + 1;
    }
    assert walk[..i] == walk;
    c := Compression(true, stored, None);
  }

  /** A successful compression stores exactly the selected files: every one
      of them, and nothing that is a directory or the archive itself. */
  lemma {:induction false} EntriesAreSelectedFiles(src: string, archive: string, walk: seq<Visit>)
    ensures |EntriesOf(src, archive, walk)| <= |walk|
    ensures forall n :: n in EntriesOf(src, archive, walk) <==>
      exists i :: 0 <= i < |walk| && Selected(archive, walk[i]) && n == EntryName(src, walk[i].path)
    decreases |walk|
  {
    if |walk| > 0 {
      var init := walk[..|walk| - 1];
      EntriesAreSelectedFiles(src, archive, init);
      forall n ensures n in EntriesOf(src, archive, walk) <==>
        exists i :: 0 <= i < |walk| && Selected(archive, walk[i]) && n == EntryName(src, walk[i].path)
      {
        if n in EntriesOf(src, archive, init) {
          var i :| 0 <= i < |init| && Selected(archive, init[i]) && n == EntryName(src, init[i].path);
          assert walk[i] == init[i];
        }
        if exists i :: 0 <= i < |walk| && Selected(archive, walk[i]) && n == EntryName(src, walk[i].path) {
          var i :| 0 <= i < |walk| && Selected(archive, walk[i]) && n == EntryName(src, walk[i].path);
          if i < |init| {
            assert init[i] == walk[i];
          }
        }
      }
    }
  }
}
