/** A file tree, the operations that the stores use on it, and the map of a directory's files. */
module FileStore {
  import opened Wrappers
  import opened Text
  import opened Paths

  datatype Node = File(content: string) | Directory

  /** Everything below the root, which always exists. */
  type Tree = map<Path, Node>

  datatype FileError = NotFound | System | BadName

  predicate IsDirectory(tree: Tree, path: Path) {
    path == [] || (path in tree && tree[path].Directory?)
  }

  predicate Exists(tree: Tree, path: Path) {
    path == [] || path in tree
  }

  /** Some prefix of the path, or the path itself, is a file. */
  predicate Blocked(tree: Tree, path: Path) {
    exists k :: 0 < k <= |path| && path[..k] in tree && tree[path[..k]].File?
  }

  /** `mkdir_p`: every missing prefix becomes a directory. */
  function MakeDirectories(tree: Tree, path: Path): Result<Tree, FileError> {
    if path == [] then Ok(tree)
    else
      match MakeDirectories(tree, path[..|path| - 1])
      case Err(e) => Err(e)
      case Ok(t) =>
        if path !in t then Ok(t[path := Directory])
        else if t[path].Directory? then Ok(t)
        else Err(System)
  }

  function ReadFile(tree: Tree, path: Path): Result<string, FileError> {
    if path in tree && tree[path].File? then Ok(tree[path].content)
    else if IsDirectory(tree, path) || Blocked(tree, path) then Err(System)
    else Err(NotFound)
  }

  function WriteFile(tree: Tree, path: Path, content: string): Result<Tree, FileError> {
    if IsDirectory(tree, path) then Err(System) else Ok(tree[path := File(content)])
  }

  function DeleteFile(tree: Tree, path: Path): Result<Tree, FileError> {
    if !Exists(tree, path) then Err(NotFound)
    else if IsDirectory(tree, path) then Err(System)
    else Ok(tree - {path})
  }

  lemma {:induction false} BlockedStep(tree: Tree, path: Path)
    requires path != []
    ensures Blocked(tree, path) <==>
            Blocked(tree, path[..|path| - 1]) || (path in tree && tree[path].File?)
  {
    var rest := path[..|path| - 1];
    assert path[..|path|] == path;
    assert forall k :: 0 <= k <= |rest| ==> rest[..k] == path[..k];
    if k :| 0 < k <= |rest| && rest[..k] in tree && tree[rest[..k]].File? {
      assert path[..k] in tree;
    }
  }

  /** `mkdir_p` fails exactly on a blocked path, and otherwise only adds directories on the way. */
  lemma {:induction false} MakeDirectoriesAdds(tree: Tree, path: Path)
    ensures MakeDirectories(tree, path).Ok? <==> !Blocked(tree, path)
    ensures MakeDirectories(tree, path).Ok? ==>
              var t := MakeDirectories(tree, path).value;
              && IsDirectory(t, path)
              && (forall p :: p in tree ==> p in t && t[p] == tree[p])
              && (forall p :: p in t && p !in tree ==> t[p].Directory? && p <= path)
  {
    if path != [] {
      MakeDirectoriesAdds(tree, path[..|path| - 1]);
      BlockedStep(tree, path);
    }
  }

  // ------------------------------------------- a directory as a map of its files

  function FileAt(tree: Tree, p: Path): Option<string> {
    if p in tree && tree[p].File? then Some(tree[p].content) else None
  }

  predicate IsChildOf(p: Path, dir: Path) {
    |p| == |dir| + 1 && p[..|dir|] == dir
  }

  lemma ChildNames(dir: Path)
    ensures forall name :: IsChildOf(dir + [name], dir) && (dir + [name])[|dir|] == name
  {
  }

  /** The contents of the accepted files of a directory, by name. */
  function Files(tree: Tree, dir: Path): (m: map<string, string>)
    ensures forall name :: name in m <==> Accepted(name) && FileAt(tree, dir + [name]).Some?
    ensures forall name :: name in m ==> Some(m[name]) == FileAt(tree, dir + [name])
  {
    ChildNames(dir);
    var names := set p | p in tree && IsChildOf(p, dir) :: p[|dir|];
    map name | name in names && Accepted(name) && FileAt(tree, dir + [name]).Some? ::
      FileAt(tree, dir + [name]).value
  }

  /** When only one path's file may differ, the map differs at its name only. */
  lemma FilesFollow(tree: Tree, tree': Tree, dir: Path, name: string)
    requires Accepted(name)
    requires forall p :: p != dir + [name] ==> FileAt(tree', p) == FileAt(tree, p)
    ensures var f := FileAt(tree', dir + [name]);
            Files(tree', dir) == if f.Some? then Files(tree, dir)[name := f.value] else Files(tree, dir) - {name}
  {
    ChildNames(dir);
    forall other | other != name
      ensures FileAt(tree', dir + [other]) == FileAt(tree, dir + [other])
    {
      assert (dir + [other])[|dir|] != (dir + [name])[|dir|];
    }
  }

  /** Making directories changes no file, so no map either. */
  lemma MakeDirectoriesKeepsFiles(tree: Tree, dir: Path)
    requires MakeDirectories(tree, dir).Ok?
    ensures var t := MakeDirectories(tree, dir).value;
            Files(t, dir) == Files(tree, dir) && forall p :: FileAt(t, p) == FileAt(tree, p)
  {
    MakeDirectoriesAdds(tree, dir);
  }

  predicate Distinct(names: seq<string>) {
    forall i, j :: 0 <= i < j < |names| ==> names[i] != names[j]
  }

  /** What a directory listing returns, in any order: the two dots and the names of the children. */
  ghost predicate ListsDirectory(tree: Tree, dir: Path, entries: seq<string>) {
    && Distinct(entries)
    && forall e :: e in entries <==> e == "." || e == ".." || (CleanPiece(e) && dir + [e] in tree)
  }

  /** Writing an accepted name, directories first. */
  function WriteIn(tree: Tree, dir: Path, name: string, content: string): Result<Tree, FileError> {
    match MakeDirectories(tree, dir)
    case Err(e) => Err(e)
    case Ok(t) => WriteFile(t, dir + [name], content)
  }

  /**
   * A write is the update of the map at that name and changes no other file anywhere; it fails
   * exactly if the directory is blocked or a directory has the name.
   */
  lemma WriteIsUpdate(tree: Tree, dir: Path, name: string, content: string)
    requires Accepted(name)
    ensures var r := WriteIn(tree, dir, name, content);
            && (r.Ok? <==> !Blocked(tree, dir) && !IsDirectory(tree, dir + [name]))
            && (r.Ok? ==>
                  && Files(r.value, dir) == Files(tree, dir)[name := content]
                  && forall p :: p != dir + [name] ==> FileAt(r.value, p) == FileAt(tree, p))
  {
    MakeDirectoriesAdds(tree, dir);
    var r := WriteIn(tree, dir, name, content);
    if r.Ok? {
      FilesFollow(tree, r.value, dir, name);
    }
  }

  /** A read is the lookup of the map. */
  lemma ReadIsLookup(tree: Tree, dir: Path, name: string)
    requires Accepted(name)
    ensures var r := ReadFile(tree, dir + [name]);
            && (r.Ok? <==> name in Files(tree, dir))
            && (r.Ok? ==> r.value == Files(tree, dir)[name])
  {
  }

  /** A delete is the removal from the map, and fails exactly if the name is not there. */
  lemma DeleteIsRemoval(tree: Tree, dir: Path, name: string)
    requires Accepted(name)
    ensures var r := DeleteFile(tree, dir + [name]);
            && (r.Ok? <==> name in Files(tree, dir))
            && (r.Ok? ==>
                  && Files(r.value, dir) == Files(tree, dir) - {name}
                  && forall p :: p != dir + [name] ==> FileAt(r.value, p) == FileAt(tree, p))
  {
    var r := DeleteFile(tree, dir + [name]);
    if r.Ok? {
      FilesFollow(tree, r.value, dir, name);
    }
  }
}
