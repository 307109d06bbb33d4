/** Where an upload puts its temporary file, and how that name relates to the target's. */
module UploadPath {
  import opened Common
  import RemotePath

  type Path = string

  // ----- Names -----

  function LastComponent(path: Path): string {
    var parts := RemotePath.Split(path);
    parts[|parts| - 1]
  }

  /** The last component of `path`, if it is acceptable as a target name. */
  function TargetName(path: Path): Option<string> {
    var name := LastComponent(path);
    if !RemotePath.Valid(path) || name == "" || name[0] == '.' then None else Some(name)
  }

  function Parent(path: Path): Path {
    LastComponentEndsPath(path);
    RemotePath.TrimEndSlashes(path[..|path| - |LastComponent(path)|])
  }

  function TemporaryName(path: Path, unique: string): string {
    "." + LastComponent(path) + ".axssh-upload-" + unique
  }

  function TemporaryPath(path: Path, unique: string): Path
  {
    Parent(path) + "/" + TemporaryName(path, unique)
  }

  lemma {:induction false} LastComponentEndsPath(path: Path)
    ensures var name := LastComponent(path); var n := |path| - |name|;
      && 0 <= n && path[n..] == name && '/' !in name
      && ('/' in path ==> && 0 < n && path[n - 1] == '/'
                          && RemotePath.Split(path) == RemotePath.Split(path[..n - 1]) + [name])
      && ('/' !in path ==> name == path && RemotePath.Split(path) == [path])
  {
    assert LastComponent(path) in RemotePath.Split(path);
    if '/' !in path {
      RemotePath.SplitPlain(path);
    } else {
      var i := LastSlash(path);
      var name := path[i + 1..];
      assert path == path[..i] + "/" + name;
      RemotePath.SplitAtSlash(path[..i], name);
      RemotePath.SplitPlain(name);
      assert LastComponent(path) == name;
    }
  }

  lemma {:induction false} LastSlash(path: Path) returns (i: nat)
    requires '/' in path
    ensures i < |path| && path[i] == '/' && '/' !in path[i + 1..]
  {
    if path[|path| - 1] == '/' {
      i := |path| - 1;
    } else {
      var shorter := path[..|path| - 1];
      i := LastSlash(shorter);
      assert path[i + 1..] == shorter[i + 1..] + [path[|path| - 1]];
    }
  }

  lemma TemporaryComponents(path: Path, unique: string)
    requires '/' !in unique
    ensures RemotePath.Split(TemporaryPath(path, unique)) ==
            RemotePath.Split(Parent(path)) + [TemporaryName(path, unique)]
  {
    LastComponentEndsPath(path);
    RemotePath.SplitPlain(TemporaryName(path, unique));
    RemotePath.SplitAtSlash(Parent(path), TemporaryName(path, unique));
  }

  /** The temporary file is never the target: its name is hidden, a target's is not. */
  lemma TemporaryIsNotTheTarget(path: Path, unique: string)
    requires TargetName(path).Some? && '/' !in unique
    ensures TemporaryPath(path, unique) != path
  {
    TemporaryComponents(path, unique);
    assert LastComponent(TemporaryPath(path, unique)) == TemporaryName(path, unique);
    assert TemporaryName(path, unique)[0] == '.';
  }

  /** The directory `path` names an entry of, for someone at `cwd`. */
  function Directory(cwd: seq<string>, path: Path): seq<string> {
    var parts := RemotePath.Split(path);
    RemotePath.Walk(if RemotePath.Absolute(path) then [] else cwd, parts[..|parts| - 1])
  }

  /**
   The temporary file is made in the target's own directory exactly when the path
   names a directory: a bare file name gets its temporary file in the root.
   */
  lemma TemporaryBesideTargetIff(cwd: seq<string>, path: Path, unique: string)
    requires TargetName(path).Some? && '/' !in unique
    ensures Directory(cwd, TemporaryPath(path, unique)) == Directory(cwd, path) <==> '/' in path || cwd == []
  {
    var name, temporary := LastComponent(path), TemporaryPath(path, unique);
    LastComponentEndsPath(path);
    TemporaryComponents(path, unique);
    var parts := RemotePath.Split(Parent(path));
    assert (parts + [TemporaryName(path, unique)])[..|parts|] == parts;
    if '/' in path {
      var d := path[..|path| - |name| - 1];
      var dir := RemotePath.Split(d);
      assert (dir + [name])[..|dir|] == dir;
      assert path[..|path| - |name|][..|d|] == d;
      assert Parent(path) == RemotePath.TrimEndSlashes(d);
      RemotePath.TrimmedLeadsToTheSamePlace(if RemotePath.Absolute(path) then [] else cwd, d);
      if Parent(path) == "" {
        RemotePath.AllSlashes(d);
        assert d != "" ==> d[0] in d;
      } else {
        assert path[0] == d[0] == Parent(path)[0] == temporary[0];
      }
    } else {
      assert path[..0] == "";
      assert parts == [""];
      assert RemotePath.Walk([], [""]) == [];
    }
  }
}
