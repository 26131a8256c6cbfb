/** Cloud-init templates: what may be saved, and the scan that finds templates on disk. */
module Templates {
  import opened Wrappers
  import opened Text
  import opened Paths
  import opened FileStore

  const HEADER := "#cloud-config"

  /** The text up to the first line break. */
  function FirstLine(s: string): string {
    if s == "" || s[0] == '\n' then "" else [s[0]] + FirstLine(s[1..])
  }

  /** The scan's test: the first line of the file, stripped, is the header. */
  predicate HasHeader(content: string) {
    content != "" && Strip(FirstLine(content)) == HEADER
  }

  datatype ContentError = Empty | NoHeader | BadYaml

  /** `yaml` says whether the YAML library accepts the content. */
  function Validate(content: string, yaml: string -> bool): Result<(), ContentError> {
    var trimmed := Strip(content);
    if trimmed == "" then Err(Empty)
    else if Strip(FirstLine(trimmed)) != HEADER then Err(NoHeader)
    else if !yaml(content) then Err(BadYaml)
    else Ok(())
  }

  // ------------------------------------------- validating and scanning agree

  lemma {:induction false} FirstLineSplits(s: string)
    ensures |FirstLine(s)| <= |s| && s[..|FirstLine(s)|] == FirstLine(s)
    ensures '\n' !in FirstLine(s)
    ensures |FirstLine(s)| < |s| ==> s[|FirstLine(s)|] == '\n'
  {
    if s != "" && s[0] != '\n' {
      FirstLineSplits(s[1..]);
    }
  }

  lemma {:induction false} FirstLineOf(line: string, rest: string)
    requires '\n' !in line && (rest != "" ==> rest[0] == '\n')
    ensures FirstLine(line + rest) == line
  {
    if line == "" {
      assert line + rest == rest;
    } else {
      assert (line + rest)[1..] == line[1..] + rest;
      FirstLineOf(line[1..], rest);
    }
  }

  lemma {:induction false} TrimLeftOfAppend(s: string, t: string)
    requires !Blank(s)
    ensures TrimLeft(s + t) == TrimLeft(s) + t
  {
    if IsSpace(s[0]) {
      assert (s + t)[1..] == s[1..] + t;
      assert !Blank(s[1..]);
      TrimLeftOfAppend(s[1..], t);
    }
  }

  lemma {:induction false} TrimRightOfAppend(s: string, t: string)
    ensures Blank(t) ==> TrimRight(s + t) == TrimRight(s)
    ensures !Blank(t) ==> TrimRight(s + t) == s + TrimRight(t)
  {
    if t == "" {
      assert s + t == s;
    } else {
      assert (s + t)[..|s + t| - 1] == s + t[..|t| - 1];
      TrimRightOfAppend(s, t[..|t| - 1]);
      if Blank(t) {
        assert Blank(t[..|t| - 1]);
      }
    }
  }

  lemma TrimLeftKeepsEnd(s: string)
    requires !Blank(s)
    ensures TrimLeft(s) != "" && IsTrimmed(TrimLeft(s))
  {
  }

  predicate IsTrimmed(s: string) {
    s != "" && !IsSpace(s[0])
  }

  lemma StripOfTrimmed(s: string)
    requires IsTrimmed(s)
    ensures Strip(s) == TrimRight(s) && !Blank(s)
    ensures IsTrimmed(TrimRight(s)) && Strip(TrimRight(s)) == TrimRight(s)
  {
    var r := TrimRight(s);
    assert r != "";
    assert r[0] == s[0];
    assert TrimRight(r) == r;
  }

  lemma TrimmedFirstLine(head: string, rest: string)
    requires IsTrimmed(head) && '\n' !in head && (rest != "" ==> rest[0] == '\n')
    ensures TrimRight(head + rest) != ""
    ensures Strip(FirstLine(TrimRight(head + rest))) == TrimRight(head)
  {
    TrimRightOfAppend(head, rest);
    StripOfTrimmed(head);
    if Blank(rest) {
      FirstLineOf(TrimRight(head), "");
      assert TrimRight(head) + "" == TrimRight(head);
    } else {
      FirstLineOf(head, TrimRight(rest));
    }
  }

  /** When the first line is not blank, stripping the content does not change what it says. */
  lemma StripKeepsFirstLine(content: string)
    requires !Blank(FirstLine(content))
    ensures Strip(content) != ""
    ensures Strip(FirstLine(Strip(content))) == Strip(FirstLine(content))
  {
    FirstLineSplits(content);
    var line := FirstLine(content);
    var rest := content[|line|..];
    assert content == line + rest;
    TrimLeftOfAppend(line, rest);
    TrimLeftKeepsEnd(line);
    assert '\n' !in TrimLeft(line);
    TrimmedFirstLine(TrimLeft(line), rest);
  }

  lemma BlankLineHasNoHeader(line: string)
    requires Blank(line)
    ensures Strip(line) != HEADER
  {
    StripBlank(line);
  }

  /**
   * Content that may be saved is found by the scan exactly if its first line is not blank; and
   * what the scan finds may always be saved, as far as its first line is concerned.
   */
  lemma SavedIsFoundIff(content: string, yaml: string -> bool)
    ensures Validate(content, yaml).Ok? ==> (HasHeader(content) <==> !Blank(FirstLine(content)))
    ensures HasHeader(content) && yaml(content) ==> Validate(content, yaml).Ok?
  {
    if Blank(FirstLine(content)) {
      BlankLineHasNoHeader(FirstLine(content));
    } else {
      StripKeepsFirstLine(content);
      assert content != "";
    }
  }

  /** Nothing to strip, and one line. */
  predicate Tight(h: string) {
    h != "" && !IsSpace(h[0]) && !IsSpace(h[|h| - 1]) && '\n' !in h
  }

  /** The line `h` with blanks around it, up to a line break or the end. */
  predicate HasLine(s: string, h: string, left: string, right: string, rest: string) {
    && s == left + (h + right) + rest
    && Blank(left) && Blank(right) && '\n' !in right
    && (rest == "" || rest[0] == '\n')
  }

  /** The header as its own line, after blank lines only. */
  ghost predicate SaysHeader(content: string) {
    exists left, right, rest :: HasLine(content, "#cloud-config", left, right, rest)
  }

  /** The header as the first line. */
  ghost predicate StartsWithHeader(content: string) {
    exists left, right, rest :: HasLine(content, "#cloud-config", left, right, rest) && '\n' !in left
  }

  lemma Regroup<T>(a: seq<T>, b: seq<T>, c: seq<T>)
    ensures a + b + c == a + (b + c)
  {
  }

  lemma {:induction false} TrimLeftSplits(s: string) returns (left: string)
    ensures s == left + TrimLeft(s) && Blank(left)
  {
    if s == "" || !IsSpace(s[0]) {
      left := "";
    } else {
      var rest := TrimLeftSplits(s[1..]);
      left := [s[0]] + rest;
      BlankPair([s[0]], rest);
      Regroup([s[0]], rest, TrimLeft(s[1..]));
      assert s == [s[0]] + s[1..] && TrimLeft(s) == TrimLeft(s[1..]);
    }
  }

  lemma {:induction false} TrimRightSplits(s: string) returns (right: string)
    ensures s == TrimRight(s) + right && Blank(right)
  {
    if s == "" || !IsSpace(s[|s| - 1]) {
      right := "";
    } else {
      var rest := TrimRightSplits(s[..|s| - 1]);
      right := rest + [s[|s| - 1]];
      BlankPair(rest, [s[|s| - 1]]);
      Regroup(TrimRight(s[..|s| - 1]), rest, [s[|s| - 1]]);
      assert s == s[..|s| - 1] + [s[|s| - 1]] && TrimRight(s) == TrimRight(s[..|s| - 1]);
    }
  }

  /** What stripping takes off. */
  lemma StripSplits(s: string) returns (left: string, right: string)
    ensures s == left + (Strip(s) + right) && Blank(left) && Blank(right)
  {
    left := TrimLeftSplits(s);
    right := TrimRightSplits(TrimLeft(s));
  }

  lemma FirstLineAndRest(s: string) returns (rest: string)
    ensures s == FirstLine(s) + rest && '\n' !in FirstLine(s) && (rest == "" || rest[0] == '\n')
  {
    FirstLineSplits(s);
    rest := s[|FirstLine(s)|..];
  }

  lemma LineReads(h: string, left: string, right: string, rest: string)
    requires Tight(h) && Blank(left) && Blank(right) && '\n' !in left && '\n' !in right
    requires rest == "" || rest[0] == '\n'
    ensures Strip(FirstLine(left + (h + right) + rest)) == h
  {
    FirstLineOf(left + (h + right), rest);
    Regroup(left, h, right);
    StripPadded(left, h, right);
  }

  lemma LineIsRead(content: string) returns (left: string, right: string, rest: string)
    ensures HasLine(content, Strip(FirstLine(content)), left, right, rest) && '\n' !in left
  {
    rest := FirstLineAndRest(content);
    left, right := StripSplits(FirstLine(content));
    NoBreaks(FirstLine(content), left, Strip(FirstLine(content)), right);
  }

  lemma NoBreaks(line: string, a: string, b: string, c: string)
    requires line == a + (b + c) && '\n' !in line
    ensures '\n' !in a && '\n' !in c
  {
    assert forall x :: x in a ==> x in line;
    assert forall x :: x in c ==> x in b + c && x in line;
  }

  lemma HeaderIsTight()
    ensures Tight(HEADER) && HEADER == "#cloud-config"
  {
  }

  /** The scan looks for a first line of `#cloud-config` and nothing but blanks around it. */
  lemma HasHeaderIff(content: string)
    ensures HasHeader(content) <==> StartsWithHeader(content)
  {
    HeaderIsTight();
    if HasHeader(content) {
      var left, right, rest := LineIsRead(content);
    }
    if left, right, rest :| HasLine(content, HEADER, left, right, rest) && '\n' !in left {
      LineReads(HEADER, left, right, rest);
      assert |content| >= |HEADER|;
    }
  }

  lemma LineStaysFirst(h: string, left: string, right: string, rest: string)
    requires Tight(h) && Blank(left) && Blank(right) && '\n' !in right && (rest == "" || rest[0] == '\n')
    ensures var s := left + (h + right) + rest;
            Strip(s) != "" && Strip(FirstLine(Strip(s))) == h
  {
    var head := h + right;
    Regroup(left, head, rest);
    assert (head + rest)[0] == head[0] == h[0];
    TrimLeftPadded(left, head + rest);
    assert '\n' !in head;
    TrimmedFirstLine(head, rest);
    TrimRightPadded(h, right);
  }

  lemma MoreFollows(before: string, l: string, h: string, r: string, more: string, after: string)
    ensures before + ((l + (h + r) + more) + after) == (before + l) + (h + r) + (more + after)
  {
  }

  lemma BlanksFollow(before: string, l: string, h: string, r: string, after: string, right: string, rest: string)
    requires r + after == right + rest
    ensures before + ((l + (h + r) + "") + after) == (before + l) + (h + right) + rest
  {
    var none: string := "";
    assert l + (h + r) + none == l + (h + r);
    assert before + ((l + (h + r)) + after) == (before + l) + (h + (r + after));
    assert (before + l) + (h + (right + rest)) == (before + l) + (h + right) + rest;
  }

  lemma BlankParts(a: string, b: string, line: string, rest: string)
    requires Blank(a) && Blank(b) && a + b == line + rest
    ensures Blank(line)
  {
    assert forall i :: 0 <= i < |line| ==> line[i] == (a + b)[i];
  }

  lemma BlankPair(a: string, b: string)
    requires Blank(a) && Blank(b)
    ensures Blank(a + b)
  {
  }

  /** The first line of the stripped content, put back into the content. */
  lemma LineWasThere(content: string, h: string) returns (left: string, right: string, rest: string)
    requires Strip(content) != "" && Strip(FirstLine(Strip(content))) == h
    ensures HasLine(content, h, left, right, rest)
  {
    var before, after := StripSplits(content);
    var l, r, more := LineIsRead(Strip(content));
    left := before + l;
    BlankPair(before, l);
    if more != "" {
      right, rest := r, more + after;
      MoreFollows(before, l, h, r, more, after);
    } else {
      right := FirstLine(r + after);
      rest := FirstLineAndRest(r + after);
      BlankParts(r, after, right, rest);
      BlanksFollow(before, l, h, r, after, right, rest);
    }
  }

  /**
   * What may be saved: content that the YAML library accepts, whose first line that is not blank is
   * the header; and what is said of other content.
   */
  lemma ValidateIff(content: string, yaml: string -> bool)
    ensures Validate(content, yaml).Ok? <==> SaysHeader(content) && yaml(content)
    ensures Validate(content, yaml) == Err(Empty) <==> Blank(content)
    ensures Validate(content, yaml) == Err(BadYaml) <==> SaysHeader(content) && !yaml(content)
  {
    HeaderIsTight();
    StripBlank(content);
    if Strip(content) != "" && Strip(FirstLine(Strip(content))) == HEADER {
      var left, right, rest := LineWasThere(content, HEADER);
    }
    if left, right, rest :| HasLine(content, HEADER, left, right, rest) {
      LineStaysFirst(HEADER, left, right, rest);
    }
  }

  /** For instance: one empty line before the header. */
  function AfterEmptyLine(body: string): string {
    ['\n'] + (HEADER + (['\n'] + body))
  }

  lemma LeadingBlankLineIsNotFound(body: string, yaml: string -> bool)
    requires yaml(AfterEmptyLine(body))
    ensures Validate(AfterEmptyLine(body), yaml).Ok? && !HasHeader(AfterEmptyLine(body))
  {
    EmptyLineIsTrimmed(HEADER + (['\n'] + body));
    BlankLineHasNoHeader("");
    HeaderFirst(body);
  }

  lemma EmptyLineIsTrimmed(s: string)
    ensures Strip(['\n'] + s) == Strip(s) && FirstLine(['\n'] + s) == ""
  {
    assert (['\n'] + s)[1..] == s;
  }

  lemma HeaderFirst(body: string)
    ensures var s := HEADER + (['\n'] + body);
            Strip(s) != "" && Strip(FirstLine(Strip(s))) == HEADER
  {
    FirstLineOf(HEADER, ['\n'] + body);
    StripTight(HEADER);
    StripBlank(HEADER);
    StripKeepsFirstLine(HEADER + (['\n'] + body));
  }

  // ------------------------------------------------------------------ the scan

  datatype Template = Template(name: string, path: Path)

  /** What listing a directory answers; `None` when it cannot be read. */
  type Listing = string -> Option<seq<string>>

  /** Listings are true to the tree; there is none of the empty name, of a file, or of nothing. */
  ghost predicate Truthful(tree: Tree, cwd: Path, dirs: seq<string>, listing: Listing) {
    forall d :: d in dirs && listing(d).Some? ==>
      d != "" && IsDirectory(tree, Expand(cwd, d)) && ListsDirectory(tree, Expand(cwd, d), listing(d).value)
  }

  /** The scan takes this entry of this directory: a YAML file that starts with the header. */
  predicate Eligible(tree: Tree, cwd: Path, dir: string, entry: string) {
    && entry != "." && entry != ".."
    && !IsDirectory(tree, Expand(cwd, Join(dir, entry)))
    && HasYamlSuffix(entry)
    && var file := FileAt(tree, Expand(cwd, Join(dir, entry)));
    && file.Some? && HasHeader(file.value)
  }

  function EligiblePaths(tree: Tree, cwd: Path, dir: string, entries: seq<string>): set<Path> {
    if entries == [] then {}
    else
      var e := entries[|entries| - 1];
      EligiblePaths(tree, cwd, dir, entries[..|entries| - 1]) +
      if Eligible(tree, cwd, dir, e) then {Expand(cwd, Join(dir, e))} else {}
  }

  /** The paths that a scan of the directories offers; an unreadable directory adds none. */
  function OfferedPaths(tree: Tree, cwd: Path, dirs: seq<string>, listing: Listing): set<Path> {
    if dirs == [] then {}
    else
      var d := dirs[|dirs| - 1];
      OfferedPaths(tree, cwd, dirs[..|dirs| - 1], listing) +
      if listing(d).Some? then EligiblePaths(tree, cwd, d, listing(d).value) else {}
  }

  predicate FoundIn(tree: Tree, cwd: Path, dir: string, entries: seq<string>, path: Path) {
    exists e :: e in entries && Eligible(tree, cwd, dir, e) && Expand(cwd, Join(dir, e)) == path
  }

  lemma {:induction false} EligiblePathsMeaning(tree: Tree, cwd: Path, dir: string, entries: seq<string>, path: Path)
    ensures path in EligiblePaths(tree, cwd, dir, entries) <==> FoundIn(tree, cwd, dir, entries, path)
  {
    if entries != [] {
      var rest, last := entries[..|entries| - 1], entries[|entries| - 1];
      EligiblePathsMeaning(tree, cwd, dir, rest, path);
      assert entries == rest + [last];
      if FoundIn(tree, cwd, dir, entries, path) {
        var e :| e in entries && Eligible(tree, cwd, dir, e) && Expand(cwd, Join(dir, e)) == path;
        assert e == last || e in rest;
      }
    }
  }

  lemma {:induction false} OfferedBySome(tree: Tree, cwd: Path, dirs: seq<string>, listing: Listing, path: Path)
    ensures path in OfferedPaths(tree, cwd, dirs, listing) <==>
            exists d :: d in dirs && listing(d).Some? && FoundIn(tree, cwd, d, listing(d).value, path)
  {
    if dirs != [] {
      var rest, last := dirs[..|dirs| - 1], dirs[|dirs| - 1];
      OfferedBySome(tree, cwd, rest, listing, path);
      assert dirs == rest + [last];
      if listing(last).Some? {
        EligiblePathsMeaning(tree, cwd, last, listing(last).value, path);
      }
      if d :| d in dirs && listing(d).Some? && FoundIn(tree, cwd, d, listing(d).value, path) {
        assert d == last || d in rest;
      }
    }
  }

  /** A YAML file right below the directory whose first line is the header. */
  predicate IsTemplateOf(tree: Tree, dir: Path, path: Path) {
    && IsChildOf(path, dir) && CleanPiece(path[|dir|]) && HasYamlSuffix(path[|dir|])
    && FileAt(tree, path).Some? && HasHeader(FileAt(tree, path).value)
  }

  lemma FoundIff(tree: Tree, cwd: Path, dir: string, entries: seq<string>, path: Path)
    requires dir != "" && ListsDirectory(tree, Expand(cwd, dir), entries)
    ensures FoundIn(tree, cwd, dir, entries, path) <==> IsTemplateOf(tree, Expand(cwd, dir), path)
  {
    var base := Expand(cwd, dir);
    if e :| e in entries && Eligible(tree, cwd, dir, e) && Expand(cwd, Join(dir, e)) == path {
      ExpandJoin(cwd, dir, e);
      ChildNames(base);
    }
    if IsTemplateOf(tree, base, path) {
      var e := path[|base|];
      assert path == base + [e];
      ExpandJoin(cwd, dir, e);
      assert e in entries && Eligible(tree, cwd, dir, e);
    }
  }

  /**
   * The offered paths are exactly those of the YAML files whose first line is the header, in the
   * directories that can be read.
   */
  lemma OfferedIff(tree: Tree, cwd: Path, dirs: seq<string>, listing: Listing, path: Path)
    requires Truthful(tree, cwd, dirs, listing)
    ensures path in OfferedPaths(tree, cwd, dirs, listing) <==>
            exists d :: d in dirs && listing(d).Some? && IsTemplateOf(tree, Expand(cwd, d), path)
  {
    OfferedBySome(tree, cwd, dirs, listing, path);
    forall d | d in dirs && listing(d).Some?
      ensures FoundIn(tree, cwd, d, listing(d).value, path) <==> IsTemplateOf(tree, Expand(cwd, d), path)
    {
      FoundIff(tree, cwd, d, listing(d).value, path);
    }
  }

  function PathsOf(templates: seq<Template>): set<Path> {
    set t | t in templates :: t.path
  }

  predicate NoPathTwice(templates: seq<Template>) {
    forall k, l :: 0 <= k < l < |templates| ==> templates[k].path != templates[l].path
  }

  lemma TemplatesStep(templates: seq<Template>, t: Template)
    ensures PathsOf(templates + [t]) == PathsOf(templates) + {t.path}
    ensures NoPathTwice(templates) && t.path !in PathsOf(templates) ==> NoPathTwice(templates + [t])
  {
    forall u | u in templates
      ensures u in templates + [t]
    {
    }
    assert t in templates + [t];
    assert forall k :: 0 <= k < |templates| ==> templates[k].path in PathsOf(templates);
  }

  predicate Rising(picks: seq<nat>, n: nat) {
    (forall k, l :: 0 <= k < l < |picks| ==> picks[k] < picks[l]) && forall k :: 0 <= k < |picks| ==> picks[k] < n
  }

  /** Each template added is labelled with its entry, and they come in the order of the entries. */
  predicate Added(cwd: Path, dir: string, entries: seq<string>, picks: seq<nat>, templates: seq<Template>)
    requires Rising(picks, |entries|)
  {
    && |picks| == |templates|
    && forall k :: 0 <= k < |picks| ==>
         templates[k] == Template(entries[picks[k]], Expand(cwd, Join(dir, entries[picks[k]])))
  }

  /** What a directory adds: its eligible entries, but for paths that are there already. */
  function Scanned(tree: Tree, cwd: Path, dir: string, entries: seq<string>, options: seq<Template>): seq<Template> {
    if entries == [] then options
    else
      var r, e := Scanned(tree, cwd, dir, entries[..|entries| - 1], options), entries[|entries| - 1];
      var path := Expand(cwd, Join(dir, e));
      if path !in PathsOf(r) && Eligible(tree, cwd, dir, e) then r + [Template(e, path)] else r
  }

  /** It adds exactly the eligible paths, and none twice. */
  lemma {:induction false} ScannedPaths(tree: Tree, cwd: Path, dir: string, entries: seq<string>, options: seq<Template>)
    requires NoPathTwice(options)
    ensures var r := Scanned(tree, cwd, dir, entries, options);
            NoPathTwice(r) && PathsOf(r) == PathsOf(options) + EligiblePaths(tree, cwd, dir, entries)
  {
    if entries != [] {
      var rest, e := entries[..|entries| - 1], entries[|entries| - 1];
      ScannedPaths(tree, cwd, dir, rest, options);
      TemplatesStep(Scanned(tree, cwd, dir, rest, options), Template(e, Expand(cwd, Join(dir, e))));
    }
  }

  /** It adds them in the order of the entries, each labelled with its entry. */
  lemma {:induction false} ScannedOrder(tree: Tree, cwd: Path, dir: string, entries: seq<string>, options: seq<Template>)
    returns (picks: seq<nat>, added: seq<Template>)
    ensures Scanned(tree, cwd, dir, entries, options) == options + added
    ensures Rising(picks, |entries|) && Added(cwd, dir, entries, picks, added)
  {
    if entries == [] {
      picks, added := [], [];
    } else {
      var n := |entries| - 1;
      var rest, e := entries[..n], entries[n];
      picks, added := ScannedOrder(tree, cwd, dir, rest, options);
      var path := Expand(cwd, Join(dir, e));
      var r := Scanned(tree, cwd, dir, rest, options);
      if path !in PathsOf(r) && Eligible(tree, cwd, dir, e) {
        AddedStep(cwd, dir, entries, picks, added, n);
        Regroup(options, added, [Template(e, path)]);
        picks, added := picks + [n], added + [Template(e, path)];
      }
    }
  }

  /** The directories one after another; one that cannot be read is skipped. */
  function ScannedAll(tree: Tree, cwd: Path, dirs: seq<string>, listing: Listing): seq<Template> {
    if dirs == [] then []
    else
      var r, d := ScannedAll(tree, cwd, dirs[..|dirs| - 1], listing), dirs[|dirs| - 1];
      if listing(d).Some? then Scanned(tree, cwd, d, listing(d).value, r) else r
  }

  lemma {:induction false} ScannedAllPaths(tree: Tree, cwd: Path, dirs: seq<string>, listing: Listing)
    ensures var r := ScannedAll(tree, cwd, dirs, listing);
            NoPathTwice(r) && PathsOf(r) == OfferedPaths(tree, cwd, dirs, listing)
  {
    if dirs != [] {
      var rest, d := dirs[..|dirs| - 1], dirs[|dirs| - 1];
      ScannedAllPaths(tree, cwd, rest, listing);
      if listing(d).Some? {
        ScannedPaths(tree, cwd, d, listing(d).value, ScannedAll(tree, cwd, rest, listing));
      }
    }
  }

  /** What an earlier directory offers comes first, and stays. */
  lemma {:induction false} EarlierDirectoriesFirst(tree: Tree, cwd: Path, dirs: seq<string>, listing: Listing, k: nat)
    requires k <= |dirs|
    ensures ScannedAll(tree, cwd, dirs[..k], listing) <= ScannedAll(tree, cwd, dirs, listing)
  {
    if k == |dirs| {
      assert dirs[..k] == dirs;
    } else {
      var n := |dirs| - 1;
      assert dirs[..n][..k] == dirs[..k];
      EarlierDirectoriesFirst(tree, cwd, dirs[..n], listing, k);
      if listing(dirs[n]).Some? {
        var picks, added :=
          ScannedOrder(tree, cwd, dirs[n], listing(dirs[n]).value, ScannedAll(tree, cwd, dirs[..n], listing));
      }
    }
  }

  lemma AddedStep(cwd: Path, dir: string, entries: seq<string>, picks: seq<nat>, added: seq<Template>, j: nat)
    requires j < |entries| && Rising(picks, j) && Added(cwd, dir, entries, picks, added)
    ensures Rising(picks + [j], j + 1)
    ensures Added(cwd, dir, entries, picks + [j], added + [Template(entries[j], Expand(cwd, Join(dir, entries[j])))])
  {
  }

  class Scanner {
    const tree: Tree
    const cwd: Path

    constructor (tree: Tree, cwd: Path)
      ensures this.tree == tree && this.cwd == cwd
    {
      this.tree, this.cwd := tree, cwd;
    }

    /** One directory: entries that are new and eligible are added in their order. */
    method ScanDirectory(dir: string, entries: seq<string>, options: seq<Template>) returns (r: seq<Template>)
      ensures r == Scanned(tree, cwd, dir, entries, options)
    {
      r := options;
      var j := 0;
      while j < |entries|
        invariant 0 <= j <= |entries|
        invariant r == Scanned(tree, cwd, dir, entries[..j], options)
      {
        assert entries[..j + 1][..j] == entries[..j];
        var path := Expand(cwd, Join(dir, entries[j]));
        if path !in PathsOf(r) && Eligible(tree, cwd, dir, entries[j]) {
          r := r + [Template(entries[j], path)];
        }
        j := j + 1;
      }
      assert entries[..j] == entries;
    }

    /** The whole scan returns each path once, and exactly the offered ones. */
    method Scan(dirs: seq<string>, listing: Listing) returns (options: seq<Template>)
      ensures options == ScannedAll(tree, cwd, dirs, listing)
      ensures NoPathTwice(options)
      ensures PathsOf(options) == OfferedPaths(tree, cwd, dirs, listing)
    {
      options := [];
      var i := 0;
      while i < |dirs|
        invariant 0 <= i <= |dirs|
        invariant options == ScannedAll(tree, cwd, dirs[..i], listing)
      {
        assert dirs[..i + 1][..i] == dirs[..i];
        var entries := listing(dirs[i]);
        if entries.Some? {
          options := ScanDirectory(dirs[i], entries.value, options);
        }
        i := i + 1;
      }
      assert dirs[..i] == dirs;
      ScannedAllPaths(tree, cwd, dirs, listing);
    }
  }

  lemma WrittenIsTemplateIff(tree: Tree, dir: Path, name: string, content: string)
    requires Accepted(name) && WriteIn(tree, dir, name, content).Ok?
    ensures IsTemplateOf(WriteIn(tree, dir, name, content).value, dir, dir + [name]) <==> HasHeader(content)
  {
    AcceptedIsClean(name);
    ChildNames(dir);
    assert FileAt(WriteIn(tree, dir, name, content).value, dir + [name]) == Some(content);
  }

  /**
   * Creating a template and scanning fit together: content that validates, written under an
   * accepted name, is offered by any scan that can read the directory afterwards, if and only if
   * its first line is not blank.
   */
  lemma CreatedIsScanned(tree: Tree, cwd: Path, baseDir: string, name: string, content: string,
                         yaml: string -> bool, dirs: seq<string>, listing: Listing)
    requires Clean(cwd) && baseDir in dirs && Accepted(name) && Validate(content, yaml).Ok?
    requires WriteIn(tree, Expand(cwd, baseDir), name, content).Ok?
    requires Truthful(WriteIn(tree, Expand(cwd, baseDir), name, content).value, cwd, dirs, listing)
    requires listing(baseDir).Some?
    ensures Sanitize(cwd, baseDir, Some(name)).Ok?
    ensures Sanitize(cwd, baseDir, Some(name)).value in
            OfferedPaths(WriteIn(tree, Expand(cwd, baseDir), name, content).value, cwd, dirs, listing)
            <==> !Blank(FirstLine(content))
  {
    var dir, tree' := Expand(cwd, baseDir), WriteIn(tree, Expand(cwd, baseDir), name, content).value;
    SanitizeIsChild(cwd, baseDir, name);
    SavedIsFoundIff(content, yaml);
    WrittenIsTemplateIff(tree, dir, name, content);
    ScannedIff(tree', cwd, baseDir, dirs, listing, name);
  }

  /** In a directory that the scan reads, a name is offered exactly if it is a template there. */
  lemma ScannedIff(tree: Tree, cwd: Path, baseDir: string, dirs: seq<string>, listing: Listing, name: string)
    requires Truthful(tree, cwd, dirs, listing) && baseDir in dirs && listing(baseDir).Some?
    ensures var path := Expand(cwd, baseDir) + [name];
            path in OfferedPaths(tree, cwd, dirs, listing) <==> IsTemplateOf(tree, Expand(cwd, baseDir), path)
  {
    var dir, path := Expand(cwd, baseDir), Expand(cwd, baseDir) + [name];
    OfferedIff(tree, cwd, dirs, listing, path);
    if d :| d in dirs && listing(d).Some? && IsTemplateOf(tree, Expand(cwd, d), path) {
      assert dir == path[..|path| - 1] == Expand(cwd, d);
    }
  }
}
