/**
 * File names and paths: splitting, normalising against a working directory, and the check that
 * turns a user's file name into a path inside a base directory.
 */
module Paths {
  import opened Text
  import opened Wrappers

  /** An absolute path as its components from the root. */
  type Path = seq<string>

  /** What one more character in front does to the pieces. */
  function Prepend(c: char, pieces: seq<string>): seq<string>
    requires pieces != []
  {
    if c == '/' then [""] + pieces else [[c] + pieces[0]] + pieces[1..]
  }

  function Split(s: string): (pieces: seq<string>)
    ensures pieces != [] && forall i :: 0 <= i < |pieces| ==> '/' !in pieces[i]
  {
    if s == "" then [""] else Prepend(s[0], Split(s[1..]))
  }

  /** One component of a path that is being normalised. */
  function Push(path: Path, piece: string): Path {
    if piece == "" || piece == "." then path
    else if piece == ".." then (if path == [] then [] else path[..|path| - 1])
    else path + [piece]
  }

  function Normalize(start: Path, pieces: seq<string>): Path {
    if pieces == [] then start
    else Push(Normalize(start, pieces[..|pieces| - 1]), pieces[|pieces| - 1])
  }

  function Expand(cwd: Path, text: string): Path {
    Normalize(if text != "" && text[0] == '/' then [] else cwd, Split(text))
  }

  function Render(path: Path): string {
    if path == [] then "/" else RenderBelow(path)
  }

  function RenderBelow(path: Path): string {
    if path == [] then "" else RenderBelow(path[..|path| - 1]) + "/" + path[|path| - 1]
  }

  function Join(dir: string, name: string): string {
    if dir != "" && dir[|dir| - 1] == '/' then dir + name else dir + "/" + name
  }

  predicate CleanPiece(piece: string) {
    piece != "" && piece != "." && piece != ".." && '/' !in piece
  }

  predicate Clean(path: Path) {
    forall i :: 0 <= i < |path| ==> CleanPiece(path[i])
  }

  lemma PrependAppend(c: char, a: seq<string>, b: seq<string>)
    requires a != []
    ensures Prepend(c, a + b) == Prepend(c, a) + b
  {
  }

  lemma {:induction false} SplitAtSlash(a: string, b: string)
    ensures Split(a + "/" + b) == Split(a) + Split(b)
  {
    if a == "" {
      assert (a + "/" + b)[1..] == b;
    } else {
      SplitAtSlash(a[1..], b);
      SplitCons(a[0], a[1..] + "/" + b);
      SplitCons(a[0], a[1..]);
      PrependAppend(a[0], Split(a[1..]), Split(b));
      assert a == [a[0]] + a[1..];
      assert a + "/" + b == [a[0]] + (a[1..] + "/" + b);
    }
  }

  lemma SplitCons(c: char, s: string)
    ensures Split([c] + s) == Prepend(c, Split(s))
  {
    assert ([c] + s)[1..] == s;
  }

  lemma {:induction false} SplitWithoutSlash(s: string)
    requires '/' !in s
    ensures Split(s) == [s]
  {
    if s != "" {
      SplitWithoutSlash(s[1..]);
      assert [s[0]] + s[1..] == s;
    }
  }

  lemma {:induction false} NormalizeAppend(start: Path, a: seq<string>, b: seq<string>)
    ensures Normalize(start, a + b) == Normalize(Normalize(start, a), b)
  {
    if b == [] {
      assert a + b == a;
    } else {
      assert (a + b)[..|a + b| - 1] == a + b[..|b| - 1];
      NormalizeAppend(start, a, b[..|b| - 1]);
    }
  }

  lemma {:induction false} NormalizeIsClean(start: Path, pieces: seq<string>)
    requires Clean(start) && forall i :: 0 <= i < |pieces| ==> '/' !in pieces[i]
    ensures Clean(Normalize(start, pieces))
  {
    if pieces != [] {
      NormalizeIsClean(start, pieces[..|pieces| - 1]);
    }
  }

  lemma ExpandIsClean(cwd: Path, text: string)
    requires Clean(cwd)
    ensures Clean(Expand(cwd, text))
  {
    NormalizeIsClean(if text != "" && text[0] == '/' then [] else cwd, Split(text));
  }

  lemma NormalizeLast(start: Path, dir: string, name: string)
    requires '/' !in name
    ensures Normalize(start, Split(dir + "/" + name)) == Push(Normalize(start, Split(dir)), name)
  {
    SplitAtSlash(dir, name);
    SplitWithoutSlash(name);
    NormalizeAppend(start, Split(dir), [name]);
    OnePiece(Normalize(start, Split(dir)), name);
  }

  /** A clean component joined to a directory names its direct child. */
  lemma ExpandJoin(cwd: Path, dir: string, name: string)
    requires dir != "" && CleanPiece(name)
    ensures Expand(cwd, Join(dir, name)) == Expand(cwd, dir) + [name]
  {
    var start := if dir[0] == '/' then [] else cwd;
    assert Join(dir, name)[0] == dir[0];
    if dir[|dir| - 1] == '/' {
      var d := dir[..|dir| - 1];
      assert dir == d + "/" + "" && Join(dir, name) == d + "/" + name;
      NormalizeLast(start, d, "");
      NormalizeLast(start, d, name);
    } else {
      NormalizeLast(start, dir, name);
    }
  }

  lemma ExpandPiece(cwd: Path, dir: string, piece: string)
    requires dir != "" && '/' !in piece
    ensures Expand(cwd, dir + "/" + piece) == Push(Expand(cwd, dir), piece)
  {
    NormalizeLast(if dir[0] == '/' then [] else cwd, dir, piece);
    assert (dir + "/" + piece)[0] == dir[0];
  }

  /** A point stays, two points go up but not above the root, and a slash at the end says nothing. */
  lemma ExpandDots(cwd: Path, dir: string)
    requires dir != ""
    ensures Expand(cwd, dir + "/.") == Expand(cwd, dir) && Expand(cwd, dir + "/") == Expand(cwd, dir)
    ensures Expand(cwd, dir) == [] ==> Expand(cwd, dir + "/..") == []
    ensures Expand(cwd, dir) != [] ==> Expand(cwd, dir + "/..") == Expand(cwd, dir)[..|Expand(cwd, dir)| - 1]
  {
    ExpandPiece(cwd, dir, ".");
    ExpandPiece(cwd, dir, "..");
    ExpandPiece(cwd, dir, "");
    assert dir + "/" + "" == dir + "/" && dir + "/" + "." == dir + "/." && dir + "/" + ".." == dir + "/..";
  }

  /** Relative names start from the working directory, and absolute ones from the root. */
  lemma ExpandStarts(cwd: Path, name: string)
    requires CleanPiece(name)
    ensures Expand(cwd, name) == cwd + [name] && Expand(cwd, "/" + name) == [name]
  {
    SplitWithoutSlash(name);
    OnePiece(cwd, name);
    SplitAtSlash("", name);
    assert "" + "/" + name == "/" + name;
    assert Split("/" + name) == [""] + [name];
    NormalizeAppend([], [""], [name]);
    OnePiece([], "");
    OnePiece([], name);
  }

  lemma OnePiece(path: Path, piece: string)
    ensures Normalize(path, [piece]) == Push(path, piece)
  {
    assert [piece][..0] == [];
  }

  lemma {:induction false} ExpandRenderBelow(path: Path)
    requires Clean(path)
    ensures Normalize([], Split(RenderBelow(path))) == path
    ensures path != [] ==> RenderBelow(path) != "" && RenderBelow(path)[0] == '/'
  {
    if path == [] {
      OnePiece([], "");
    } else {
      var rest, last := path[..|path| - 1], path[|path| - 1];
      ExpandRenderBelow(rest);
      NormalizeLast([], RenderBelow(rest), last);
      assert path == rest + [last];
      assert rest == [] ==> RenderBelow(rest) == "";
    }
  }

  /** Writing a clean absolute path out and expanding it gives it back, from anywhere. */
  lemma ExpandRender(cwd: Path, path: Path)
    requires Clean(path)
    ensures Expand(cwd, Render(path)) == path && Render(path) != ""
  {
    ExpandRenderBelow(path);
    if path == [] {
      SplitAtSlash("", "");
      assert Split("/") == Split("" + "/" + "");
      assert Split("/") == [""] + [""];
      NormalizeAppend([], [""], [""]);
      OnePiece([], "");
    }
  }

  // ------------------------------------------------------------ safe file names

  datatype NameError = Required | Invalid | BadShape

  predicate Alnum(c: char) {
    'a' <= c <= 'z' || 'A' <= c <= 'Z' || '0' <= c <= '9'
  }

  predicate SafeChar(c: char) {
    Alnum(c) || c == '_' || c == '.' || c == '-'
  }

  predicate HasDotDot(name: string) {
    exists i :: 0 <= i < |name| - 1 && name[i] == '.' && name[i + 1] == '.'
  }

  predicate HasYamlSuffix(name: string) {
    EndsWith(Downcase(name), ".yml") || EndsWith(Downcase(name), ".yaml")
  }

  predicate HasNameShape(name: string) {
    && name != "" && Alnum(name[0])
    && (forall i :: 0 <= i < |name| ==> SafeChar(name[i]))
    && HasYamlSuffix(name)
  }

  /** A letter or digit, by its code. */
  predicate PlainCode(c: char) {
    48 <= c as int <= 57 || 65 <= c as int <= 90 || 97 <= c as int <= 122
  }

  /** A point and yml or yaml, in letters of either case. */
  predicate EndsInYaml(name: string) {
    var n := |name|;
    || (n >= 4 && name[n - 4] == '.' && name[n - 3] in "yY" && name[n - 2] in "mM" && name[n - 1] in "lL")
    || (n >= 5 && name[n - 5] == '.' && name[n - 4] in "yY" && name[n - 3] in "aA" && name[n - 2] in "mM" && name[n - 1] in "lL")
  }

  lemma EndsWithIff(name: string, suffix: string)
    ensures EndsWith(Downcase(name), suffix) <==>
            |suffix| <= |name| && forall i :: 0 <= i < |suffix| ==> Lower(name[|name| - |suffix| + i]) == suffix[i]
  {
    var d := Downcase(name);
    if |suffix| <= |name| {
      var end := d[|d| - |suffix|..];
      assert forall i :: 0 <= i < |suffix| ==> end[i] == Lower(name[|name| - |suffix| + i]);
    }
  }

  lemma LowerIs(c: char)
    ensures Lower(c) == 'y' <==> c in "yY"
    ensures Lower(c) == 'a' <==> c in "aA"
    ensures Lower(c) == 'm' <==> c in "mM"
    ensures Lower(c) == 'l' <==> c in "lL"
    ensures Lower(c) == '.' <==> c == '.'
  {
  }

  lemma YmlIff(name: string)
    requires |name| >= 4
    ensures var n := |name|;
            EndsWith(Downcase(name), ".yml") <==>
            name[n - 4] == '.' && name[n - 3] in "yY" && name[n - 2] in "mM" && name[n - 1] in "lL"
  {
    var n, suffix := |name|, ".yml";
    EndsWithIff(name, suffix);
    LowerIs(name[n - 4]); LowerIs(name[n - 3]); LowerIs(name[n - 2]); LowerIs(name[n - 1]);
    assert suffix[0] == '.' && suffix[1] == 'y' && suffix[2] == 'm' && suffix[3] == 'l';
    assert (forall i :: 0 <= i < 4 ==> Lower(name[n - 4 + i]) == suffix[i]) <==>
           Lower(name[n - 4 + 0]) == '.' && Lower(name[n - 4 + 1]) == 'y' && Lower(name[n - 4 + 2]) == 'm' && Lower(name[n - 4 + 3]) == 'l';
  }

  lemma YamlIff(name: string)
    requires |name| >= 5
    ensures var n := |name|;
            EndsWith(Downcase(name), ".yaml") <==>
            name[n - 5] == '.' && name[n - 4] in "yY" && name[n - 3] in "aA" && name[n - 2] in "mM" && name[n - 1] in "lL"
  {
    var n, suffix := |name|, ".yaml";
    EndsWithIff(name, suffix);
    LowerIs(name[n - 5]); LowerIs(name[n - 4]); LowerIs(name[n - 3]); LowerIs(name[n - 2]); LowerIs(name[n - 1]);
    assert suffix[0] == '.' && suffix[1] == 'y' && suffix[2] == 'a' && suffix[3] == 'm' && suffix[4] == 'l';
    assert (forall i :: 0 <= i < 5 ==> Lower(name[n - 5 + i]) == suffix[i]) <==>
           && Lower(name[n - 5 + 0]) == '.' && Lower(name[n - 5 + 1]) == 'y' && Lower(name[n - 5 + 2]) == 'a'
           && Lower(name[n - 5 + 3]) == 'm' && Lower(name[n - 5 + 4]) == 'l';
  }

  lemma YamlSuffixIff(name: string)
    ensures HasYamlSuffix(name) <==> EndsInYaml(name)
  {
    if |name| >= 4 {
      YmlIff(name);
    }
    if |name| >= 5 {
      YamlIff(name);
    }
  }

  /** Which names are accepted, character by character. */
  lemma AcceptedIff(name: string)
    ensures Accepted(name) <==>
            && |name| >= 5 && PlainCode(name[0])
            && (forall i :: 0 <= i < |name| ==> PlainCode(name[i]) || name[i] in "_.-")
            && (forall i :: 0 <= i < |name| - 1 ==> name[i] != '.' || name[i + 1] != '.')
            && EndsInYaml(name)
  {
    YamlSuffixIff(name);
  }

  function CommonPrefix(a: Path, b: Path): (k: nat)
    ensures k <= |a| && k <= |b| && a[..k] == b[..k]
  {
    if a == [] || b == [] || a[0] != b[0] then 0 else 1 + CommonPrefix(a[1..], b[1..])
  }

  /** The relative path climbs out of `base`, or starts with two dots for another reason. */
  predicate RelativeStartsWithDots(path: Path, base: Path) {
    var k := CommonPrefix(path, base);
    k < |base| || (k < |path| && |path[k]| >= 2 && path[k][..2] == "..")
  }

  function Sanitize(cwd: Path, baseDir: string, name: Option<string>): Result<Path, NameError> {
    if name.None? || name.value == "" then Err(Required)
    else if '/' in name.value || '\\' in name.value || HasDotDot(name.value) then Err(Invalid)
    else if !HasNameShape(name.value) then Err(BadShape)
    else
      var base := Expand(cwd, baseDir);
      var path := Expand(cwd, Join(Render(base), name.value));
      if RelativeStartsWithDots(path, base) then Err(Invalid) else Ok(path)
  }

  predicate Accepted(name: string) {
    HasNameShape(name) && !HasDotDot(name)
  }

  lemma AcceptedIsClean(name: string)
    requires Accepted(name)
    ensures CleanPiece(name) && name[0] != '.'
    ensures '/' !in name && '\\' !in name && name != ""
  {
  }

  lemma {:induction false} CommonPrefixOfChild(base: Path, name: string)
    ensures CommonPrefix(base + [name], base) == |base|
  {
    if base != [] {
      assert (base + [name])[1..] == base[1..] + [name];
      CommonPrefixOfChild(base[1..], name);
    }
  }

  /**
   * A name is accepted exactly by its characters, and then its path is the direct child of that
   * name of the normalised base directory; the containment check never turns one down.
   */
  lemma SanitizeIsChild(cwd: Path, baseDir: string, name: string)
    requires Clean(cwd)
    ensures Sanitize(cwd, baseDir, Some(name)).Ok? <==> Accepted(name)
    ensures Accepted(name) ==> Sanitize(cwd, baseDir, Some(name)).value == Expand(cwd, baseDir) + [name]
  {
    if Accepted(name) {
      var base := Expand(cwd, baseDir);
      AcceptedIsClean(name);
      ExpandIsClean(cwd, baseDir);
      ExpandRender(cwd, base);
      ExpandJoin(cwd, Render(base), name);
      CommonPrefixOfChild(base, name);
    }
  }

  /** A slash or a backslash at `i`, or two points from there. */
  predicate ForbiddenAt(name: string, i: nat) {
    i < |name| && (name[i] == '/' || name[i] == '\\' || (i + 1 < |name| && name[i] == '.' && name[i + 1] == '.'))
  }

  lemma ForbiddenIff(name: string)
    ensures ('/' in name || '\\' in name || HasDotDot(name)) <==> exists i: nat :: ForbiddenAt(name, i)
  {
    if '/' in name {
      var i: nat :| i < |name| && name[i] == '/';
      assert ForbiddenAt(name, i);
    } else if '\\' in name {
      var i: nat :| i < |name| && name[i] == '\\';
      assert ForbiddenAt(name, i);
    } else if HasDotDot(name) {
      var i: nat :| i < |name| - 1 && name[i] == '.' && name[i + 1] == '.';
      assert ForbiddenAt(name, i);
    }
  }

  /** What is said of the names that are turned down. */
  lemma SanitizeErrors(cwd: Path, baseDir: string, name: string)
    requires Clean(cwd)
    ensures Sanitize(cwd, baseDir, None) == Err(Required)
    ensures Sanitize(cwd, baseDir, Some(name)) == Err(Required) <==> name == ""
    ensures Sanitize(cwd, baseDir, Some(name)) == Err(Invalid) <==> exists i: nat :: ForbiddenAt(name, i)
  {
    SanitizeIsChild(cwd, baseDir, name);
    ForbiddenIff(name);
  }

  /** Distinct accepted names never share a path. */
  lemma SanitizeIsInjective(cwd: Path, baseDir: string, a: string, b: string)
    requires Clean(cwd) && Accepted(a) && Accepted(b)
    requires Sanitize(cwd, baseDir, Some(a)) == Sanitize(cwd, baseDir, Some(b))
    ensures a == b
  {
    SanitizeIsChild(cwd, baseDir, a);
    SanitizeIsChild(cwd, baseDir, b);
    assert (Expand(cwd, baseDir) + [a])[|Expand(cwd, baseDir)|] == a;
  }
}
