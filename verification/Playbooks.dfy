/** The playbook store: named YAML files of one directory, listed in order. */
module Playbooks {
  import opened Wrappers
  import opened Text
  import opened Paths
  import opened FileStore

  // ---------------------------------------------------------------- sorting

  predicate Before(a: string, b: string) {
    a == "" || (b != "" && (a[0] < b[0] || (a[0] == b[0] && Before(a[1..], b[1..]))))
  }

  lemma {:induction false} BeforeIsTotal(a: string, b: string)
    ensures Before(a, b) || Before(b, a)
    ensures Before(a, b) && Before(b, a) ==> a == b
  {
    if a != "" && b != "" && a[0] == b[0] {
      BeforeIsTotal(a[1..], b[1..]);
      assert a == [a[0]] + a[1..] && b == [b[0]] + b[1..];
    }
  }

  lemma {:induction false} BeforeIsTransitive(a: string, b: string, c: string)
    requires Before(a, b) && Before(b, c)
    ensures Before(a, c)
  {
    if a != "" && a[0] == b[0] && b[0] == c[0] {
      BeforeIsTransitive(a[1..], b[1..], c[1..]);
    }
  }

  /** The names differ at `k` for the first time, and `a` has the smaller character there. */
  predicate SmallerAt(a: string, b: string, k: nat) {
    k < |a| && k < |b| && a[..k] == b[..k] && a[k] < b[k]
  }

  lemma SmallerAtTail(a: string, b: string, k: nat)
    requires a != "" && b != "" && a[0] == b[0]
    ensures SmallerAt(a[1..], b[1..], k) <==> SmallerAt(a, b, k + 1)
  {
    if k < |a| - 1 && k < |b| - 1 {
      assert a[..k + 1] == [a[0]] + a[1..][..k] && b[..k + 1] == [b[0]] + b[1..][..k];
      assert a[1..][..k] == a[..k + 1][1..] && b[1..][..k] == b[..k + 1][1..];
    }
  }

  lemma PrefixTail(a: string, b: string)
    requires a != "" && b != "" && a[0] == b[0]
    ensures a[1..] <= b[1..] <==> a <= b
  {
    assert a == [a[0]] + a[1..] && b == [b[0]] + b[1..];
  }

  lemma DiffersAtOnce(a: string, b: string, k: nat)
    requires a != "" && b != "" && a[0] != b[0] && k <= |a| && k <= |b|
    ensures a[..k] == b[..k] ==> k == 0
  {
    if k > 0 {
      assert a[..k][0] == a[0] && b[..k][0] == b[0];
    }
  }

  /** The order is that of the first place where two names differ, and a name's beginnings come before it. */
  lemma {:induction false} BeforeIff(a: string, b: string)
    ensures Before(a, b) <==> a <= b || exists k: nat :: SmallerAt(a, b, k)
  {
    if a != "" && b != "" && a[0] == b[0] {
      BeforeIff(a[1..], b[1..]);
      PrefixTail(a, b);
      if k: nat :| SmallerAt(a[1..], b[1..], k) {
        SmallerAtTail(a, b, k);
      }
      if k: nat :| SmallerAt(a, b, k) {
        SmallerAtTail(a, b, k - 1);
      }
    } else if a != "" && b != "" {
      assert SmallerAt(a, b, 0) <==> a[0] < b[0];
      forall k: nat | k < |a| && k < |b|
        ensures SmallerAt(a, b, k) ==> k == 0
      {
        DiffersAtOnce(a, b, k);
      }
    }
  }

  predicate Sorted(names: seq<string>) {
    forall i, j :: 0 <= i < j < |names| ==> Before(names[i], names[j])
  }

  function Insert(name: string, names: seq<string>): seq<string> {
    if names == [] || Before(name, names[0]) then [name] + names
    else [names[0]] + Insert(name, names[1..])
  }

  function Sort(names: seq<string>): seq<string> {
    if names == [] then [] else Insert(names[0], Sort(names[1..]))
  }

  lemma {:induction false} InsertKeepsSorted(name: string, names: seq<string>)
    requires Sorted(names)
    ensures Sorted(Insert(name, names)) && multiset(Insert(name, names)) == multiset(names) + multiset{name}
  {
    if names == [] {
    } else if Before(name, names[0]) {
      forall j | 0 <= j < |names|
        ensures Before(name, names[j])
      {
        if j > 0 {
          BeforeIsTransitive(name, names[0], names[j]);
        }
      }
    } else {
      BeforeIsTotal(name, names[0]);
      InsertKeepsSorted(name, names[1..]);
      assert names == [names[0]] + names[1..];
      var rest := Insert(name, names[1..]);
      forall x | x in rest
        ensures Before(names[0], x)
      {
        assert x in multiset(rest);
        assert x == name || x in names[1..];
      }
    }
  }

  lemma {:induction false} SortSorts(names: seq<string>)
    ensures Sorted(Sort(names)) && multiset(Sort(names)) == multiset(names)
  {
    if names != [] {
      SortSorts(names[1..]);
      InsertKeepsSorted(names[0], Sort(names[1..]));
      assert names == [names[0]] + names[1..];
    }
  }

  // ---------------------------------------------------------------- listing

  function YamlEntries(tree: Tree, cwd: Path, baseDir: string, entries: seq<string>): seq<string> {
    if entries == [] then []
    else
      var e := entries[|entries| - 1];
      YamlEntries(tree, cwd, baseDir, entries[..|entries| - 1]) +
      if e != "." && e != ".." && !IsDirectory(tree, Expand(cwd, Join(baseDir, e))) && HasYamlSuffix(e)
      then [e] else []
  }

  /** No directory, no playbooks; a file in its place is an error. */
  function ListPlaybooks(tree: Tree, cwd: Path, baseDir: string, entries: seq<string>): Result<seq<string>, FileError> {
    var dir := Expand(cwd, baseDir);
    if baseDir == "" then Ok([])
    else if Blocked(tree, dir) then Err(System)
    else if !IsDirectory(tree, dir) then Ok([])
    else Ok(Sort(YamlEntries(tree, cwd, baseDir, entries)))
  }

  /** A base directory that is not there has no playbooks; one that cannot be there is an error. */
  lemma ListOutcome(tree: Tree, cwd: Path, baseDir: string, entries: seq<string>)
    ensures var r, dir := ListPlaybooks(tree, cwd, baseDir, entries), Expand(cwd, baseDir);
            && (r.Ok? <==> baseDir == "" || !Blocked(tree, dir))
            && (r.Ok? && (baseDir == "" || !IsDirectory(tree, dir)) ==> r.value == [])
  {
  }

  lemma {:induction false} YamlEntriesFilter(tree: Tree, cwd: Path, baseDir: string, entries: seq<string>)
    requires baseDir != "" && Distinct(entries)
    requires forall e :: e in entries ==> e == "." || e == ".." || CleanPiece(e)
    ensures var r := YamlEntries(tree, cwd, baseDir, entries);
            && Distinct(r)
            && forall e :: e in r <==>
                 && e in entries && e != "." && e != ".." && HasYamlSuffix(e)
                 && !IsDirectory(tree, Expand(cwd, baseDir) + [e])
  {
    if entries != [] {
      var rest, e := entries[..|entries| - 1], entries[|entries| - 1];
      assert e in entries && entries == rest + [e];
      YamlEntriesFilter(tree, cwd, baseDir, rest);
      if CleanPiece(e) {
        ExpandJoin(cwd, baseDir, e);
      }
    }
  }

  /** The list is sorted, names each YAML file of the directory once, and nothing else. */
  lemma ListIsExact(tree: Tree, cwd: Path, baseDir: string, entries: seq<string>)
    requires baseDir != "" && IsDirectory(tree, Expand(cwd, baseDir)) && !Blocked(tree, Expand(cwd, baseDir))
    requires ListsDirectory(tree, Expand(cwd, baseDir), entries)
    ensures var r := ListPlaybooks(tree, cwd, baseDir, entries);
            && r.Ok? && Sorted(r.value) && Distinct(r.value)
            && forall e :: e in r.value <==>
                 CleanPiece(e) && HasYamlSuffix(e) && FileAt(tree, Expand(cwd, baseDir) + [e]).Some?
  {
    YamlEntriesFilter(tree, cwd, baseDir, entries);
    SortIsExact(YamlEntries(tree, cwd, baseDir, entries));
  }

  lemma SortIsExact(names: seq<string>)
    requires Distinct(names)
    ensures Sorted(Sort(names)) && Distinct(Sort(names))
    ensures forall e :: e in Sort(names) <==> e in names
  {
    SortSorts(names);
    var sorted := Sort(names);
    forall e
      ensures e in sorted <==> e in names
    {
      assert e in sorted <==> e in multiset(sorted);
    }
    DistinctByMultiset(names, sorted);
  }

  lemma {:induction false} CountDistinct(names: seq<string>)
    ensures Distinct(names) <==> forall x :: x in names ==> multiset(names)[x] == 1
  {
    if names != [] {
      var rest, last := names[..|names| - 1], names[|names| - 1];
      assert names == rest + [last];
      CountDistinct(rest);
      assert multiset(names) == multiset(rest) + multiset{last};
      if Distinct(names) {
        assert last !in rest && last !in multiset(rest);
        forall x | x in names
          ensures multiset(names)[x] == 1
        {
          assert x == last || x in rest;
        }
      } else if Distinct(rest) {
        var i, j :| 0 <= i < j < |names| && names[i] == names[j];
        assert j == |rest| && rest[i] == last;
        assert last in multiset(rest) && multiset(names)[last] >= 2;
      } else {
        var x :| x in rest && multiset(rest)[x] != 1;
        assert x in multiset(rest) && x in names;
      }
    }
  }

  lemma DistinctByMultiset(a: seq<string>, b: seq<string>)
    requires Distinct(a) && multiset(a) == multiset(b)
    ensures Distinct(b)
  {
    CountDistinct(a);
    CountDistinct(b);
    forall x | x in b
      ensures multiset(b)[x] == 1
    {
      assert x in multiset(a);
    }
  }

  // ----------------------------------------------------- runs of writes and deletes

  datatype Op = Write(name: string, content: string) | Delete(name: string)

  /** The tree after an operation, and whether it succeeded. */
  datatype Done = Done(tree: Tree, ok: bool)

  /** Without a base directory none can be made; a write that fails may leave directories behind. */
  function Perform(tree: Tree, cwd: Path, baseDir: string, op: Op): Done {
    match Sanitize(cwd, baseDir, Some(op.name))
    case Err(_) => Done(tree, false)
    case Ok(path) =>
      match op
      case Write(_, content) =>
        if baseDir == "" then Done(tree, false) else
        (match MakeDirectories(tree, Expand(cwd, baseDir))
         case Err(_) => Done(tree, false)
         case Ok(t) =>
           match WriteFile(t, path, content)
           case Err(_) => Done(t, false)
           case Ok(t') => Done(t', true))
      case Delete(_) =>
        match DeleteFile(tree, path)
        case Err(_) => Done(tree, false)
        case Ok(t) => Done(t, true)
  }

  /** The operation on a map. */
  function Apply(m: map<string, string>, op: Op): map<string, string> {
    match op
    case Write(name, content) => m[name := content]
    case Delete(name) => m - {name}
  }

  function ApplyAll(m: map<string, string>, ops: seq<Op>): map<string, string> {
    if ops == [] then m else Apply(ApplyAll(m, ops[..|ops| - 1]), ops[|ops| - 1])
  }

  /** When an operation succeeds. */
  predicate Possible(tree: Tree, cwd: Path, baseDir: string, op: Op) {
    && Accepted(op.name)
    && match op
       case Write(name, _) =>
         && baseDir != "" && !Blocked(tree, Expand(cwd, baseDir))
         && !IsDirectory(tree, Expand(cwd, baseDir) + [name])
       case Delete(name) => name in Files(tree, Expand(cwd, baseDir))
  }

  /** One operation on the store is that operation on the map, or nothing, and spares every other file. */
  lemma PerformIsApply(tree: Tree, cwd: Path, baseDir: string, op: Op)
    requires Clean(cwd)
    ensures var dir, d := Expand(cwd, baseDir), Perform(tree, cwd, baseDir, op);
            && (d.ok <==> Possible(tree, cwd, baseDir, op))
            && Files(d.tree, dir) == (if d.ok then Apply(Files(tree, dir), op) else Files(tree, dir))
            && forall p :: p != dir + [op.name] || !d.ok ==> FileAt(d.tree, p) == FileAt(tree, p)
  {
    var dir := Expand(cwd, baseDir);
    SanitizeIsChild(cwd, baseDir, op.name);
    if Accepted(op.name) {
      match op
      case Write(name, content) =>
        WriteIsUpdate(tree, dir, name, content);
        if baseDir != "" && MakeDirectories(tree, dir).Ok? {
          MakeDirectoriesKeepsFiles(tree, dir);
        }
      case Delete(name) => DeleteIsRemoval(tree, dir, name);
    }
  }

  function Run(tree: Tree, cwd: Path, baseDir: string, ops: seq<Op>): Tree {
    if ops == [] then tree
    else Perform(Run(tree, cwd, baseDir, ops[..|ops| - 1]), cwd, baseDir, ops[|ops| - 1]).tree
  }

  /** The operations of a run that succeed. */
  function Succeeding(tree: Tree, cwd: Path, baseDir: string, ops: seq<Op>): seq<Op> {
    if ops == [] then []
    else
      var n := |ops| - 1;
      Succeeding(tree, cwd, baseDir, ops[..n]) +
      if Perform(Run(tree, cwd, baseDir, ops[..n]), cwd, baseDir, ops[n]).ok then [ops[n]] else []
  }

  /** After any run, the store is the map that its succeeding operations make of the first one. */
  lemma {:induction false} RunIsApplyAll(tree: Tree, cwd: Path, baseDir: string, ops: seq<Op>)
    requires Clean(cwd)
    ensures Files(Run(tree, cwd, baseDir, ops), Expand(cwd, baseDir)) ==
            ApplyAll(Files(tree, Expand(cwd, baseDir)), Succeeding(tree, cwd, baseDir, ops))
  {
    if ops != [] {
      var n := |ops| - 1;
      RunIsApplyAll(tree, cwd, baseDir, ops[..n]);
      PerformIsApply(Run(tree, cwd, baseDir, ops[..n]), cwd, baseDir, ops[n]);
      var before := Succeeding(tree, cwd, baseDir, ops[..n]);
      assert (before + [ops[n]])[..|before|] == before;
      assert before + [] == before;
    }
  }

  /** The last operation on a name. */
  function LastOn(ops: seq<Op>, name: string): Option<Op> {
    if ops == [] then None
    else if ops[|ops| - 1].name == name then Some(ops[|ops| - 1])
    else LastOn(ops[..|ops| - 1], name)
  }

  /** What the last operation on the name, if any, makes of it. */
  function Kept(before: map<string, string>, last: Option<Op>, name: string): Option<string> {
    match last
    case Some(Write(_, content)) => Some(content)
    case Some(Delete(_)) => None
    case None => if name in before then Some(before[name]) else None
  }

  lemma {:induction false} LastOperationDecides(m: map<string, string>, ops: seq<Op>, name: string)
    ensures var r := ApplyAll(m, ops);
            (if name in r then Some(r[name]) else None) == Kept(m, LastOn(ops, name), name)
  {
    if ops != [] {
      LastOperationDecides(m, ops[..|ops| - 1], name);
    }
  }

  // --------------------------------------------------------- trees of real files

  /** Whatever there is lies in a directory. */
  predicate WellFormed(tree: Tree) {
    forall p :: p in tree ==> p != [] && IsDirectory(tree, p[..|p| - 1])
  }

  lemma PutWellFormed(tree: Tree, path: Path, node: Node)
    requires WellFormed(tree) && path != [] && IsDirectory(tree, path[..|path| - 1]) && !IsDirectory(tree, path)
    ensures WellFormed(tree[path := node])
  {
    var t := tree[path := node];
    forall p | p in t
      ensures p != [] && IsDirectory(t, p[..|p| - 1])
    {
      var parent := if p == path then path[..|path| - 1] else p[..|p| - 1];
      assert IsDirectory(tree, parent) && parent != path;
    }
  }

  lemma RemoveWellFormed(tree: Tree, path: Path)
    requires WellFormed(tree) && !IsDirectory(tree, path)
    ensures WellFormed(tree - {path})
  {
    var t := tree - {path};
    forall p | p in t
      ensures p != [] && IsDirectory(t, p[..|p| - 1])
    {
      assert IsDirectory(tree, p[..|p| - 1]);
    }
  }

  lemma {:induction false} MakeDirectoriesWellFormed(tree: Tree, path: Path)
    requires WellFormed(tree) && MakeDirectories(tree, path).Ok?
    ensures WellFormed(MakeDirectories(tree, path).value) && IsDirectory(MakeDirectories(tree, path).value, path)
  {
    if path != [] {
      var rest := path[..|path| - 1];
      MakeDirectoriesWellFormed(tree, rest);
      var t := MakeDirectories(tree, rest).value;
      if path !in t {
        PutWellFormed(t, path, Directory);
      }
    }
  }

  lemma WriteWellFormed(tree: Tree, dir: Path, name: string, content: string)
    requires WellFormed(tree) && MakeDirectories(tree, dir).Ok?
    ensures var t := MakeDirectories(tree, dir).value;
            && WellFormed(t)
            && (WriteFile(t, dir + [name], content).Ok? ==> WellFormed(WriteFile(t, dir + [name], content).value))
  {
    MakeDirectoriesWellFormed(tree, dir);
    var t, path := MakeDirectories(tree, dir).value, dir + [name];
    assert path[..|path| - 1] == dir;
    if !IsDirectory(t, path) {
      PutWellFormed(t, path, File(content));
    }
  }

  lemma PerformWellFormed(tree: Tree, cwd: Path, baseDir: string, op: Op)
    requires WellFormed(tree) && Clean(cwd)
    ensures WellFormed(Perform(tree, cwd, baseDir, op).tree)
  {
    var dir := Expand(cwd, baseDir);
    SanitizeIsChild(cwd, baseDir, op.name);
    match op
    case Write(name, content) =>
      if MakeDirectories(tree, dir).Ok? {
        WriteWellFormed(tree, dir, name, content);
      }
    case Delete(name) =>
      if !IsDirectory(tree, dir + [name]) {
        RemoveWellFormed(tree, dir + [name]);
      }
  }

  lemma {:induction false} RunWellFormed(tree: Tree, cwd: Path, baseDir: string, ops: seq<Op>)
    requires WellFormed(tree) && Clean(cwd)
    ensures WellFormed(Run(tree, cwd, baseDir, ops))
  {
    if ops != [] {
      RunWellFormed(tree, cwd, baseDir, ops[..|ops| - 1]);
      PerformWellFormed(Run(tree, cwd, baseDir, ops[..|ops| - 1]), cwd, baseDir, ops[|ops| - 1]);
    }
  }

  lemma ListedIff(tree: Tree, cwd: Path, baseDir: string, entries: seq<string>, name: string)
    requires WellFormed(tree) && baseDir != "" && Accepted(name)
    requires IsDirectory(tree, Expand(cwd, baseDir)) ==> ListsDirectory(tree, Expand(cwd, baseDir), entries)
    ensures var r := ListPlaybooks(tree, cwd, baseDir, entries);
            r.Ok? ==> (name in r.value <==> name in Files(tree, Expand(cwd, baseDir)))
  {
    var dir := Expand(cwd, baseDir);
    AcceptedIsClean(name);
    if IsDirectory(tree, dir) && !Blocked(tree, dir) {
      ListIsExact(tree, cwd, baseDir, entries);
    } else if dir + [name] in tree {
      assert (dir + [name])[..|dir|] == dir;
    }
  }

  /**
   * After any run of writes and deletes, a name is in the list if and only if the last of them
   * that succeeded on it was a write, or there was none and it was in the store before; and a
   * read then gives what that write wrote.
   */
  lemma ListHasEveryPlaybook(tree: Tree, cwd: Path, baseDir: string, ops: seq<Op>, entries: seq<string>, name: string)
    requires WellFormed(tree) && Clean(cwd) && baseDir != "" && Accepted(name)
    requires var t, dir := Run(tree, cwd, baseDir, ops), Expand(cwd, baseDir);
             IsDirectory(t, dir) ==> ListsDirectory(t, dir, entries)
    ensures var t, dir := Run(tree, cwd, baseDir, ops), Expand(cwd, baseDir);
            var kept := Kept(Files(tree, dir), LastOn(Succeeding(tree, cwd, baseDir, ops), name), name);
            var list, read := ListPlaybooks(t, cwd, baseDir, entries), ReadFile(t, dir + [name]);
            && (list.Ok? ==> (name in list.value <==> kept.Some?))
            && (if kept.Some? then read == Ok(kept.value) else read.Err?)
  {
    var t, dir := Run(tree, cwd, baseDir, ops), Expand(cwd, baseDir);
    RunWellFormed(tree, cwd, baseDir, ops);
    ListedIff(t, cwd, baseDir, entries, name);
    RunIsApplyAll(tree, cwd, baseDir, ops);
    LastOperationDecides(Files(tree, dir), Succeeding(tree, cwd, baseDir, ops), name);
    ReadIsLookup(t, dir, name);
  }

  // ----------------------------------------------------------------- the store

  class Store {
    var tree: Tree
    const cwd: Path
    const baseDir: string

    constructor (tree: Tree, cwd: Path, baseDir: string)
      ensures this.tree == tree && this.cwd == cwd && this.baseDir == baseDir
    {
      this.tree, this.cwd, this.baseDir := tree, cwd, baseDir;
    }

    function Playbooks(): map<string, string>
      reads this
    {
      Files(tree, Expand(cwd, baseDir))
    }

    /** The store is a map from accepted names to contents: this is its lookup. */
    method ReadPlaybook(name: string) returns (r: Result<string, FileError>)
      requires Clean(cwd)
      ensures r.Ok? <==> name in Playbooks()
      ensures r.Ok? ==> r.value == Playbooks()[name]
      ensures r == Err(BadName) <==> !Accepted(name)
      ensures var path := Expand(cwd, baseDir) + [name];
              r == Err(NotFound) <==> Accepted(name) && !Exists(tree, path) && !Blocked(tree, path)
    {
      var path := Sanitize(cwd, baseDir, Some(name));
      SanitizeIsChild(cwd, baseDir, name);
      if path.Err? {
        return Err(BadName);
      }
      ReadIsLookup(tree, Expand(cwd, baseDir), name);
      r := ReadFile(tree, path.value);
    }

    /** Its update; a write that fails changes no file. */
    method WritePlaybook(name: string, content: string) returns (r: Result<(), FileError>)
      requires Clean(cwd)
      modifies this`tree
      ensures Done(tree, r.Ok?) == Perform(old(tree), cwd, baseDir, Write(name, content))
      ensures r.Ok? <==> Possible(old(tree), cwd, baseDir, Write(name, content))
      ensures r == Err(BadName) <==> !Accepted(name)
      ensures Playbooks() == if r.Ok? then old(Playbooks())[name := content] else old(Playbooks())
      ensures forall p :: p != Expand(cwd, baseDir) + [name] ==> FileAt(tree, p) == FileAt(old(tree), p)
    {
      PerformIsApply(tree, cwd, baseDir, Write(name, content));
      SanitizeIsChild(cwd, baseDir, name);
      var path := Sanitize(cwd, baseDir, Some(name));
      if path.Err? {
        return Err(BadName);
      }
      if baseDir == "" {
        return Err(System);
      }
      var made := MakeDirectories(tree, Expand(cwd, baseDir));
      if made.Err? {
        return Err(System);
      }
      tree := made.value;
      var written := WriteFile(tree, path.value, content);
      if written.Err? {
        return Err(System);
      }
      tree := written.value;
      r := Ok(());
    }

    /** Its removal. */
    method DeletePlaybook(name: string) returns (r: Result<(), FileError>)
      requires Clean(cwd)
      modifies this`tree
      ensures Done(tree, r.Ok?) == Perform(old(tree), cwd, baseDir, Delete(name))
      ensures r.Ok? <==> name in old(Playbooks())
      ensures r == Err(BadName) <==> !Accepted(name)
      ensures r == Err(NotFound) <==> Accepted(name) && !Exists(old(tree), Expand(cwd, baseDir) + [name])
      ensures Playbooks() == if r.Ok? then old(Playbooks()) - {name} else old(Playbooks())
      ensures forall p :: p != Expand(cwd, baseDir) + [name] ==> FileAt(tree, p) == FileAt(old(tree), p)
    {
      PerformIsApply(tree, cwd, baseDir, Delete(name));
      SanitizeIsChild(cwd, baseDir, name);
      var path := Sanitize(cwd, baseDir, Some(name));
      if path.Err? {
        return Err(BadName);
      }
      var deleted := DeleteFile(tree, path.value);
      if deleted.Err? {
        return Err(deleted.error);
      }
      tree := deleted.value;
      r := Ok(());
    }
  }
}
