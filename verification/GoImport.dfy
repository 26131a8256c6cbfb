/**
 * The one-off import of the Go version's configuration and event log: a transaction of
 * find-or-create steps, then the events line by line.
 */
module GoImport {
  import opened Wrappers

  /** What one row of a section is imported as, by its key. */
  datatype Entry<+V> = Entry(key: string, row: V)

  /** What may be created; it may depend on the other rows, as where names or digests are unique. */
  type Rule<!V> = (map<string, V>, Entry<V>) -> bool

  /**
   * Find by key, or create; a row that fails validation raises, which is `None`.
   */
  function FindOrCreate<V>(table: map<string, V>, e: Entry<V>, valid: Rule<V>): Option<map<string, V>> {
    if e.key in table then Some(table)
    else if valid(table, e) then Some(table[e.key := e.row])
    else None
  }

  function ImportAll<V>(table: map<string, V>, entries: seq<Entry<V>>, valid: Rule<V>): Option<map<string, V>> {
    if entries == [] then Some(table)
    else
      match ImportAll(table, entries[..|entries| - 1], valid)
      case None => None
      case Some(t) => FindOrCreate(t, entries[|entries| - 1], valid)
  }

  predicate HasKey<V>(entries: seq<Entry<V>>, key: string) {
    exists i :: 0 <= i < |entries| && entries[i].key == key
  }

  predicate FirstFor<V>(entries: seq<Entry<V>>, i: nat) {
    i < |entries| && forall j :: 0 <= j < i ==> entries[j].key != entries[i].key
  }

  lemma HasKeyStep<V>(rest: seq<Entry<V>>, e: Entry<V>)
    ensures forall k :: HasKey(rest + [e], k) <==> HasKey(rest, k) || e.key == k
  {
    var entries := rest + [e];
    assert entries[|rest|] == e && forall i :: 0 <= i < |rest| ==> entries[i] == rest[i];
    forall k | HasKey(rest, k)
      ensures HasKey(entries, k)
    {
      var i :| 0 <= i < |rest| && rest[i].key == k;
      assert entries[i].key == k;
    }
  }

  /** An import changes no row that was there, and adds exactly the keys of the entries. */
  lemma {:induction false} ImportAddsKeys<V>(table: map<string, V>, entries: seq<Entry<V>>, valid: Rule<V>)
    requires ImportAll(table, entries, valid).Some?
    ensures var r := ImportAll(table, entries, valid).value;
            && (forall k :: k in table ==> k in r && r[k] == table[k])
            && (forall k :: k in r <==> k in table || HasKey(entries, k))
  {
    if entries != [] {
      var rest, e := entries[..|entries| - 1], entries[|entries| - 1];
      ImportAddsKeys(table, rest, valid);
      HasKeyStep(rest, e);
      assert entries == rest + [e];
    }
  }

  /** For a new key the first entry wins. */
  lemma {:induction false} FirstEntryWins<V>(table: map<string, V>, entries: seq<Entry<V>>, valid: Rule<V>, i: nat)
    requires ImportAll(table, entries, valid).Some?
    requires FirstFor(entries, i) && entries[i].key !in table
    ensures var r := ImportAll(table, entries, valid).value;
            entries[i].key in r && r[entries[i].key] == entries[i].row
  {
    var rest, e := entries[..|entries| - 1], entries[|entries| - 1];
    ImportAddsKeys(table, rest, valid);
    if i < |rest| {
      FirstEntryWins(table, rest, valid, i);
    } else {
      assert !HasKey(rest, e.key);
    }
  }

  /** Importing into a table that has all the keys already does nothing. */
  lemma {:induction false} ImportOfKnownKeys<V>(table: map<string, V>, entries: seq<Entry<V>>, valid: Rule<V>)
    requires forall i :: 0 <= i < |entries| ==> entries[i].key in table
    ensures ImportAll(table, entries, valid) == Some(table)
  {
    if entries != [] {
      ImportOfKnownKeys(table, entries[..|entries| - 1], valid);
    }
  }

  lemma ImportAllTwice<V>(table: map<string, V>, entries: seq<Entry<V>>, valid: Rule<V>)
    requires ImportAll(table, entries, valid).Some?
    ensures ImportAll(ImportAll(table, entries, valid).value, entries, valid) == ImportAll(table, entries, valid)
  {
    ImportAddsKeys(table, entries, valid);
    var r := ImportAll(table, entries, valid).value;
    assert forall i :: 0 <= i < |entries| ==> HasKey(entries, entries[i].key);
    ImportOfKnownKeys(r, entries, valid);
  }

  /** All there is to say about an import: what was there stays, and each new key has its first entry. */
  ghost predicate Imported<V>(before: map<string, V>, after: map<string, V>, entries: seq<Entry<V>>) {
    && (forall k :: k in after <==> k in before || HasKey(entries, k))
    && (forall k :: k in before ==> k in after && after[k] == before[k])
    && (forall i: nat :: FirstFor(entries, i) && entries[i].key !in before ==>
          entries[i].key in after && after[entries[i].key] == entries[i].row)
  }

  lemma ImportAllImports<V>(table: map<string, V>, entries: seq<Entry<V>>, valid: Rule<V>)
    requires ImportAll(table, entries, valid).Some?
    ensures Imported(table, ImportAll(table, entries, valid).value, entries)
  {
    ImportAddsKeys(table, entries, valid);
    forall i: nat | FirstFor(entries, i) && entries[i].key !in table
      ensures var r := ImportAll(table, entries, valid).value;
              entries[i].key in r && r[entries[i].key] == entries[i].row
    {
      FirstEntryWins(table, entries, valid, i);
    }
  }

  /** The entry is new when its turn comes, and is turned down. */
  predicate FailsAt<V>(table: map<string, V>, entries: seq<Entry<V>>, valid: Rule<V>, i: nat) {
    && i < |entries|
    && ImportAll(table, entries[..i], valid).Some?
    && entries[i].key !in ImportAll(table, entries[..i], valid).value
    && !valid(ImportAll(table, entries[..i], valid).value, entries[i])
  }

  /** A section raises if and only if some new entry is turned down; entries that are there are not looked at. */
  lemma {:induction false} ImportAllFailsIff<V>(table: map<string, V>, entries: seq<Entry<V>>, valid: Rule<V>)
    ensures ImportAll(table, entries, valid).None? <==> exists i: nat :: FailsAt(table, entries, valid, i)
  {
    if entries != [] {
      var n := |entries| - 1;
      ImportAllFailsIff(table, entries[..n], valid);
      forall i: nat | i < n
        ensures FailsAt(table, entries, valid, i) <==> FailsAt(table, entries[..n], valid, i)
      {
        assert entries[..n][..i] == entries[..i];
      }
      if ImportAll(table, entries[..n], valid).Some? && ImportAll(table, entries, valid).None? {
        assert FailsAt(table, entries, valid, n);
      }
    }
  }

  method ImportRows<V>(table: map<string, V>, entries: seq<Entry<V>>, valid: Rule<V>)
    returns (r: Option<map<string, V>>)
    ensures r == ImportAll(table, entries, valid)
  {
    var t := table;
    var i := 0;
    while i < |entries|
      invariant 0 <= i <= |entries|
      invariant ImportAll(table, entries[..i], valid) == Some(t)
    {
      assert entries[..i + 1][..i] == entries[..i];
      if entries[i].key !in t {
        if !valid(t, entries[i]) {
          ImportStaysFailed(table, entries, i + 1, valid);
          return None;
        }
        t := t[entries[i].key := entries[i].row];
      }
      i := i + 1;
    }
    assert entries[..i] == entries;
    r := Some(t);
  }

  lemma {:induction false} ImportStaysFailed<V>(table: map<string, V>, entries: seq<Entry<V>>, n: nat, valid: Rule<V>)
    requires n <= |entries| && ImportAll(table, entries[..n], valid).None?
    ensures ImportAll(table, entries, valid).None?
    decreases |entries| - n
  {
    if n == |entries| {
      assert entries[..n] == entries;
    } else {
      assert entries[..n + 1][..n] == entries[..n];
      ImportStaysFailed(table, entries, n + 1, valid);
    }
  }

  // ------------------------------------------------------------ the configuration

  datatype Assignment = Assignment(group: Option<string>, isTemplate: bool)

  /** A row whose fields are copied as they are. */
  type Record = string

  datatype Config = Config(
    settings: Record,
    vmDefaults: Option<Record>,
    groups: seq<string>,
    vmGroups: seq<Entry<string>>,
    vmTemplates: seq<string>,
    profiles: seq<Entry<Record>>,
    schedules: seq<Entry<Record>>,
    tokens: seq<Entry<Record>>,
    webhooks: seq<Entry<Record>>)

  datatype Database = Database(
    settings: Option<Record>,
    vmDefaults: Option<Record>,
    groups: map<string, int>,
    assignments: map<string, Assignment>,
    profiles: map<string, Record>,
    schedules: map<string, Record>,
    tokens: map<string, Record>,
    webhooks: map<string, Record>)

  /** The models' validations. */
  datatype Rules = Rules(
    settings: Record -> bool,
    vmDefaults: Record -> bool,
    group: Rule<int>,
    assignment: Rule<Assignment>,
    profile: Rule<Record>,
    schedule: Rule<Record>,
    token: Rule<Record>,
    webhook: Rule<Record>)

  function GroupEntries(names: seq<string>): seq<Entry<int>> {
    seq(|names|, i requires 0 <= i < |names| => Entry(names[i], i))
  }

  /** The group is looked up by name when the row is created; an unknown one leaves it empty. */
  function AssignmentEntries(vmGroups: seq<Entry<string>>, groups: map<string, int>): seq<Entry<Assignment>> {
    seq(|vmGroups|, i requires 0 <= i < |vmGroups| =>
      Entry(vmGroups[i].key,
            Assignment(if vmGroups[i].row in groups then Some(vmGroups[i].row) else None, false)))
  }

  function TemplateEntries(names: seq<string>): seq<Entry<Assignment>> {
    seq(|names|, i requires 0 <= i < |names| => Entry(names[i], Assignment(None, true)))
  }

  /** Both assignment sections, one after the other. */
  function AllAssignments(cfg: Config, groups: map<string, int>): seq<Entry<Assignment>> {
    AssignmentEntries(cfg.vmGroups, groups) + TemplateEntries(cfg.vmTemplates)
  }

  /** The transaction: `None` when some step raised and everything was rolled back. */
  function ImportConfig(db: Database, cfg: Config, rules: Rules): Option<Database> {
    if !rules.settings(cfg.settings) then None
    else if cfg.vmDefaults.Some? && !rules.vmDefaults(cfg.vmDefaults.value) then None
    else
      var groups := ImportAll(db.groups, GroupEntries(cfg.groups), rules.group);
      if groups.None? then None else
      var assignments := ImportAll(db.assignments, AllAssignments(cfg, groups.value), rules.assignment);
      var profiles := ImportAll(db.profiles, cfg.profiles, rules.profile);
      var schedules := ImportAll(db.schedules, cfg.schedules, rules.schedule);
      var tokens := ImportAll(db.tokens, cfg.tokens, rules.token);
      var webhooks := ImportAll(db.webhooks, cfg.webhooks, rules.webhook);
      if assignments.None? || profiles.None? || schedules.None? || tokens.None? || webhooks.None? then None
      else
        Some(Database(
          Some(cfg.settings),
          if cfg.vmDefaults.Some? then cfg.vmDefaults else db.vmDefaults,
          groups.value, assignments.value, profiles.value, schedules.value, tokens.value, webhooks.value))
  }

  /** What the import leaves behind, done or rolled back. */
  function AfterImport(db: Database, cfg: Config, rules: Rules): Database {
    match ImportConfig(db, cfg, rules)
    case None => db
    case Some(db') => db'
  }

  /**
   * A configuration that goes through: every section is imported, groups at the places they are
   * named at, assignments with the groups that then exist, and templates after them.
   */
  lemma ConfigImports(db: Database, cfg: Config, rules: Rules)
    requires ImportConfig(db, cfg, rules).Some?
    ensures var r := ImportConfig(db, cfg, rules).value;
            && r.settings == Some(cfg.settings)
            && r.vmDefaults == (if cfg.vmDefaults.Some? then cfg.vmDefaults else db.vmDefaults)
            && Imported(db.groups, r.groups, GroupEntries(cfg.groups))
            && Imported(db.assignments, r.assignments, AllAssignments(cfg, r.groups))
            && Imported(db.profiles, r.profiles, cfg.profiles)
            && Imported(db.schedules, r.schedules, cfg.schedules)
            && Imported(db.tokens, r.tokens, cfg.tokens)
            && Imported(db.webhooks, r.webhooks, cfg.webhooks)
  {
    var r := ImportConfig(db, cfg, rules).value;
    ImportAllImports(db.groups, GroupEntries(cfg.groups), rules.group);
    ImportAllImports(db.assignments, AllAssignments(cfg, r.groups), rules.assignment);
    ImportAllImports(db.profiles, cfg.profiles, rules.profile);
    ImportAllImports(db.schedules, cfg.schedules, rules.schedule);
    ImportAllImports(db.tokens, cfg.tokens, rules.token);
    ImportAllImports(db.webhooks, cfg.webhooks, rules.webhook);
  }

  /** What the entries of the first sections are. */
  lemma EntriesAre(cfg: Config, groups: map<string, int>, i: nat)
    ensures |GroupEntries(cfg.groups)| == |cfg.groups|
    ensures i < |cfg.groups| ==> GroupEntries(cfg.groups)[i] == Entry(cfg.groups[i], i)
    ensures |AllAssignments(cfg, groups)| == |cfg.vmGroups| + |cfg.vmTemplates|
    ensures i < |cfg.vmGroups| ==>
              && AllAssignments(cfg, groups)[i].key == cfg.vmGroups[i].key
              && !AllAssignments(cfg, groups)[i].row.isTemplate
              && (cfg.vmGroups[i].row in groups ==> AllAssignments(cfg, groups)[i].row.group == Some(cfg.vmGroups[i].row))
              && (cfg.vmGroups[i].row !in groups ==> AllAssignments(cfg, groups)[i].row.group == None)
    ensures i < |cfg.vmTemplates| ==>
              AllAssignments(cfg, groups)[|cfg.vmGroups| + i] == Entry(cfg.vmTemplates[i], Assignment(None, true))
  {
  }

  /** When a configuration is rolled back: when some record in it is turned down. */
  lemma ConfigFailsIff(db: Database, cfg: Config, rules: Rules)
    ensures var groups := ImportAll(db.groups, GroupEntries(cfg.groups), rules.group);
            ImportConfig(db, cfg, rules).None? <==>
            || !rules.settings(cfg.settings)
            || (cfg.vmDefaults.Some? && !rules.vmDefaults(cfg.vmDefaults.value))
            || (exists i: nat :: FailsAt(db.groups, GroupEntries(cfg.groups), rules.group, i))
            || (groups.Some? &&
                exists i: nat :: FailsAt(db.assignments, AllAssignments(cfg, groups.value), rules.assignment, i))
            || (exists i: nat :: FailsAt(db.profiles, cfg.profiles, rules.profile, i))
            || (exists i: nat :: FailsAt(db.schedules, cfg.schedules, rules.schedule, i))
            || (exists i: nat :: FailsAt(db.tokens, cfg.tokens, rules.token, i))
            || (exists i: nat :: FailsAt(db.webhooks, cfg.webhooks, rules.webhook, i))
  {
    ImportAllFailsIff(db.groups, GroupEntries(cfg.groups), rules.group);
    ImportAllFailsIff(db.profiles, cfg.profiles, rules.profile);
    ImportAllFailsIff(db.schedules, cfg.schedules, rules.schedule);
    ImportAllFailsIff(db.tokens, cfg.tokens, rules.token);
    ImportAllFailsIff(db.webhooks, cfg.webhooks, rules.webhook);
    var groups := ImportAll(db.groups, GroupEntries(cfg.groups), rules.group);
    if groups.Some? {
      ImportAllFailsIff(db.assignments, AllAssignments(cfg, groups.value), rules.assignment);
    }
  }

  /** Importing the same configuration again changes nothing, whether the first time worked or not. */
  lemma ImportConfigTwice(db: Database, cfg: Config, rules: Rules)
    ensures var db' := AfterImport(db, cfg, rules);
            && AfterImport(db', cfg, rules) == db'
            && ImportConfig(db', cfg, rules).Some? == ImportConfig(db, cfg, rules).Some?
  {
    var r := ImportConfig(db, cfg, rules);
    if r.Some? {
      ImportAllTwice(db.groups, GroupEntries(cfg.groups), rules.group);
      ImportAllTwice(db.assignments, AllAssignments(cfg, r.value.groups), rules.assignment);
      ImportAllTwice(db.profiles, cfg.profiles, rules.profile);
      ImportAllTwice(db.schedules, cfg.schedules, rules.schedule);
      ImportAllTwice(db.tokens, cfg.tokens, rules.token);
      ImportAllTwice(db.webhooks, cfg.webhooks, rules.webhook);
    }
  }

  /** A VM in both sections keeps the row of the groups step, and of its first entry there. */
  lemma GroupsStepWins(db: Database, cfg: Config, rules: Rules, i: nat)
    requires ImportConfig(db, cfg, rules).Some?
    requires FirstFor(cfg.vmGroups, i) && cfg.vmGroups[i].key !in db.assignments
    ensures var db' := ImportConfig(db, cfg, rules).value;
            var e := cfg.vmGroups[i];
            && e.key in db'.assignments
            && db'.assignments[e.key] == Assignment(if e.row in db'.groups then Some(e.row) else None, false)
  {
    var db' := ImportConfig(db, cfg, rules).value;
    var entries := AllAssignments(cfg, db'.groups);
    assert entries[i] == AssignmentEntries(cfg.vmGroups, db'.groups)[i];
    assert forall j :: 0 <= j < i ==> entries[j].key == cfg.vmGroups[j].key;
    assert FirstFor(entries, i);
    FirstEntryWins(db.assignments, entries, rules.assignment, i);
  }

  /** No keyed row that was there is ever changed. */
  lemma ImportKeepsRows(db: Database, cfg: Config, rules: Rules, key: string)
    ensures var db' := AfterImport(db, cfg, rules);
            && (key in db.groups ==> key in db'.groups && db'.groups[key] == db.groups[key])
            && (key in db.assignments ==> key in db'.assignments && db'.assignments[key] == db.assignments[key])
            && (key in db.profiles ==> key in db'.profiles && db'.profiles[key] == db.profiles[key])
            && (key in db.schedules ==> key in db'.schedules && db'.schedules[key] == db.schedules[key])
            && (key in db.tokens ==> key in db'.tokens && db'.tokens[key] == db.tokens[key])
            && (key in db.webhooks ==> key in db'.webhooks && db'.webhooks[key] == db.webhooks[key])
  {
    var r := ImportConfig(db, cfg, rules);
    if r.Some? {
      ImportAddsKeys(db.groups, GroupEntries(cfg.groups), rules.group);
      ImportAddsKeys(db.assignments, AllAssignments(cfg, r.value.groups), rules.assignment);
      ImportAddsKeys(db.profiles, cfg.profiles, rules.profile);
      ImportAddsKeys(db.schedules, cfg.schedules, rules.schedule);
      ImportAddsKeys(db.tokens, cfg.tokens, rules.token);
      ImportAddsKeys(db.webhooks, cfg.webhooks, rules.webhook);
    }
  }

  // ------------------------------------------------------------------ the events

  /** One line of the event log; an event need not carry an id. */
  datatype Line = Blank | Malformed | Event(id: Option<string>, row: Record)

  /**
   * `next` counts the ids that were generated; `newId(n)` is the n-th. `aborted` says that one of
   * them was taken: that raises something else than the loop rescues, and ends the import.
   */
  datatype Log = Log(table: map<string, Record>, next: nat, imported: nat, aborted: bool)

  function ImportLine(log: Log, line: Line, valid: Record -> bool, newId: nat -> string): Log {
    if log.aborted then log else
    match line
    case Blank => log
    case Malformed => log
    case Event(Some(id), row) =>
      if id in log.table then log.(imported := log.imported + 1)
      else if valid(row) then log.(table := log.table[id := row], imported := log.imported + 1)
      else log
    case Event(None, row) =>
      if !valid(row) then log
      else if newId(log.next) in log.table then log.(next := log.next + 1, aborted := true)
      else log.(table := log.table[newId(log.next) := row], next := log.next + 1, imported := log.imported + 1)
  }

  function ImportLines(log: Log, lines: seq<Line>, valid: Record -> bool, newId: nat -> string): Log {
    if lines == [] then log
    else ImportLine(ImportLines(log, lines[..|lines| - 1], valid, newId), lines[|lines| - 1], valid, newId)
  }

  /** An import starts afresh, whatever became of the one before. */
  function ImportFile(log: Log, lines: seq<Line>, valid: Record -> bool, newId: nat -> string): Log {
    ImportLines(log.(aborted := false), lines, valid, newId)
  }

  /** A valid event without an id: a new row every time it is read. */
  predicate Anonymous(line: Line, valid: Record -> bool) {
    line.Event? && line.id.None? && valid(line.row)
  }

  /** A valid event with an id. */
  predicate Named(line: Line, valid: Record -> bool) {
    line.Event? && line.id.Some? && valid(line.row)
  }

  /** No row is changed or lost. */
  predicate Grows(log: Log, r: Log) {
    && (forall k :: k in log.table ==> k in r.table && r.table[k] == log.table[k])
    && |r.table| >= |log.table|
  }

  lemma LineGrows(log: Log, line: Line, valid: Record -> bool, newId: nat -> string)
    ensures var r := ImportLine(log, line, valid, newId);
            && Grows(log, r)
            && (log.aborted ==> r == log)
            && (Anonymous(line, valid) && !r.aborted ==> |r.table| == |log.table| + 1)
  {
  }

  lemma {:induction false} LinesKeep(log: Log, lines: seq<Line>, valid: Record -> bool, newId: nat -> string)
    ensures Grows(log, ImportLines(log, lines, valid, newId))
    ensures log.aborted ==> ImportLines(log, lines, valid, newId) == log
  {
    if lines != [] {
      var n := |lines| - 1;
      LinesKeep(log, lines[..n], valid, newId);
      LineGrows(ImportLines(log, lines[..n], valid, newId), lines[n], valid, newId);
    }
  }

  /** The id under which a line's event is looked up, and created if it is new. */
  function IdFor(log: Log, line: Line, newId: nat -> string): string
    requires line.Event?
  {
    if line.id.Some? then line.id.value else newId(log.next)
  }

  lemma LineImports(log: Log, line: Line, valid: Record -> bool, newId: nat -> string)
    requires !log.aborted && line.Event? && valid(line.row) && IdFor(log, line, newId) !in log.table
    ensures var r := ImportLine(log, line, valid, newId);
            && !r.aborted && r.table.Keys == log.table.Keys + {IdFor(log, line, newId)}
            && r.table[IdFor(log, line, newId)] == line.row
  {
  }

  /** Whatever else is in the file, a valid event whose id is new when its line comes is there in the end. */
  lemma EventStays(log: Log, lines: seq<Line>, i: nat, valid: Record -> bool, newId: nat -> string)
    requires i < |lines| && lines[i].Event? && valid(lines[i].row)
    requires var before := ImportLines(log, lines[..i], valid, newId);
             !before.aborted && IdFor(before, lines[i], newId) !in before.table
    ensures var id := IdFor(ImportLines(log, lines[..i], valid, newId), lines[i], newId);
            var r := ImportLines(log, lines, valid, newId);
            id in r.table && r.table[id] == lines[i].row
  {
    assert lines[..i + 1][..i] == lines[..i];
    LineImports(ImportLines(log, lines[..i], valid, newId), lines[i], valid, newId);
    MoreLinesGrow(log, lines, i + 1, valid, newId);
  }

  /** Blank and malformed lines, invalid events and events that are there leave the table alone. */
  lemma OthersAreSkipped(log: Log, line: Line, valid: Record -> bool, newId: nat -> string)
    requires line.Event? ==> !valid(line.row) || (line.id.Some? && line.id.value in log.table)
    ensures var r := ImportLine(log, line, valid, newId);
            r.table == log.table && r.aborted == log.aborted && r.next == log.next
  {
  }

  lemma {:induction false} LinesAddNamed(log: Log, lines: seq<Line>, valid: Record -> bool, newId: nat -> string, i: nat)
    requires i < |lines| && Named(lines[i], valid) && !ImportLines(log, lines, valid, newId).aborted
    ensures lines[i].id.value in ImportLines(log, lines, valid, newId).table
  {
    var n := |lines| - 1;
    LineGrows(ImportLines(log, lines[..n], valid, newId), lines[n], valid, newId);
    if i < n {
      LinesAddNamed(log, lines[..n], valid, newId, i);
    }
  }

  predicate NoneAnonymous(lines: seq<Line>, valid: Record -> bool) {
    forall i :: 0 <= i < |lines| ==> !Anonymous(lines[i], valid)
  }

  lemma {:induction false} NamedLinesNeverAbort(log: Log, lines: seq<Line>, valid: Record -> bool, newId: nat -> string)
    requires NoneAnonymous(lines, valid) && !log.aborted
    ensures !ImportLines(log, lines, valid, newId).aborted
  {
    if lines != [] {
      NamedLinesNeverAbort(log, lines[..|lines| - 1], valid, newId);
    }
  }

  lemma {:induction false} LinesAllKnown(log: Log, lines: seq<Line>, valid: Record -> bool, newId: nat -> string)
    requires NoneAnonymous(lines, valid)
    requires forall i :: 0 <= i < |lines| && Named(lines[i], valid) ==> lines[i].id.value in log.table
    ensures var r := ImportLines(log, lines, valid, newId);
            r.table == log.table && r.next == log.next && r.aborted == log.aborted
  {
    if lines != [] {
      LinesAllKnown(log, lines[..|lines| - 1], valid, newId);
    }
  }

  lemma {:induction false} MoreLinesGrow(log: Log, lines: seq<Line>, n: nat, valid: Record -> bool, newId: nat -> string)
    requires n <= |lines|
    ensures Grows(ImportLines(log, lines[..n], valid, newId), ImportLines(log, lines, valid, newId))
  {
    if n == |lines| {
      assert lines[..n] == lines;
    } else {
      var k := |lines| - 1;
      assert lines[..k][..n] == lines[..n];
      MoreLinesGrow(log, lines[..k], n, valid, newId);
      LineGrows(ImportLines(log, lines[..k], valid, newId), lines[k], valid, newId);
    }
  }

  /** The first line that needs a generated id, or the end. */
  function FirstAnonymous(lines: seq<Line>, valid: Record -> bool): (a: nat)
    ensures a <= |lines| && NoneAnonymous(lines[..a], valid)
    ensures a < |lines| ==> Anonymous(lines[a], valid)
    ensures a == |lines| <==> NoneAnonymous(lines, valid)
  {
    if lines == [] then 0
    else
      var a := FirstAnonymous(lines[..|lines| - 1], valid);
      assert lines[..|lines| - 1][..a] == lines[..a];
      if a < |lines| - 1 || Anonymous(lines[a], valid) then a else a + 1
  }

  /** An import leaves the table with the ids of all lines before the first that needs a generated one. */
  lemma KnowsFirstLines(log: Log, lines: seq<Line>, valid: Record -> bool, newId: nat -> string)
    requires !log.aborted
    ensures forall i :: 0 <= i < FirstAnonymous(lines, valid) && Named(lines[i], valid) ==>
              lines[i].id.value in ImportLines(log, lines, valid, newId).table
  {
    var a := FirstAnonymous(lines, valid);
    NamedLinesNeverAbort(log, lines[..a], valid, newId);
    MoreLinesGrow(log, lines, a, valid, newId);
    forall i | 0 <= i < a && Named(lines[i], valid)
      ensures lines[i].id.value in ImportLines(log, lines, valid, newId).table
    {
      LinesAddNamed(log, lines[..a], valid, newId, i);
    }
  }

  /** When those are known already, the import stands or falls with that first generated id. */
  lemma StaysIff(log: Log, lines: seq<Line>, valid: Record -> bool, newId: nat -> string)
    requires !log.aborted
    requires forall i :: 0 <= i < FirstAnonymous(lines, valid) && Named(lines[i], valid) ==> lines[i].id.value in log.table
    ensures ImportLines(log, lines, valid, newId).table == log.table <==>
            NoneAnonymous(lines, valid) || newId(log.next) in log.table
    ensures !NoneAnonymous(lines, valid) && newId(log.next) in log.table ==> ImportLines(log, lines, valid, newId).aborted
  {
    var a := FirstAnonymous(lines, valid);
    LinesAllKnown(log, lines[..a], valid, newId);
    if a == |lines| {
      assert lines[..a] == lines;
    } else {
      FirstGeneratedDecides(log, lines, a, valid, newId);
    }
  }

  lemma FirstGeneratedDecides(log: Log, lines: seq<Line>, a: nat, valid: Record -> bool, newId: nat -> string)
    requires !log.aborted && a < |lines| && Anonymous(lines[a], valid)
    requires var r := ImportLines(log, lines[..a], valid, newId);
             r.table == log.table && r.next == log.next && !r.aborted
    ensures ImportLines(log, lines, valid, newId).table == log.table <==> newId(log.next) in log.table
    ensures newId(log.next) in log.table ==> ImportLines(log, lines, valid, newId).aborted
  {
    assert lines[..a + 1][..a] == lines[..a];
    var r := ImportLines(log, lines[..a + 1], valid, newId);
    assert r == ImportLine(ImportLines(log, lines[..a], valid, newId), lines[a], valid, newId);
    if newId(log.next) in log.table {
      AbortSkipsTheRest(log, lines, a + 1, valid, newId);
    } else {
      MoreLinesGrow(log, lines, a + 1, valid, newId);
      assert newId(log.next) in r.table;
    }
  }

  /**
   * Importing the event file a second time leaves the table as it is if and only if no valid event
   * comes without an id, or the first id that is generated for one is taken, which ends that
   * import; no event that was there is changed in any case.
   */
  lemma ImportEventsTwiceIff(log: Log, lines: seq<Line>, valid: Record -> bool, newId: nat -> string)
    ensures var once := ImportFile(log, lines, valid, newId);
            var twice := ImportFile(once, lines, valid, newId);
            && (twice.table == once.table <==> NoneAnonymous(lines, valid) || newId(once.next) in once.table)
            && (!twice.aborted ==> (twice.table == once.table <==> NoneAnonymous(lines, valid)))
            && (NoneAnonymous(lines, valid) ==> !once.aborted && !twice.aborted)
            && Grows(log, once) && Grows(once, twice)
  {
    var start := log.(aborted := false);
    var again := ImportFile(log, lines, valid, newId).(aborted := false);
    LinesKeep(start, lines, valid, newId);
    LinesKeep(again, lines, valid, newId);
    KnowsFirstLines(start, lines, valid, newId);
    StaysIff(again, lines, valid, newId);
    if NoneAnonymous(lines, valid) {
      NamedLinesNeverAbort(start, lines, valid, newId);
      NamedLinesNeverAbort(again, lines, valid, newId);
    }
  }

  /** For instance: a log of one event without an id grows on every import. */
  lemma AnonymousEventIsAddedAgain(log: Log, row: Record, valid: Record -> bool, newId: nat -> string)
    requires valid(row) && newId(log.next) !in log.table && newId(log.next) != newId(log.next + 1)
    requires newId(log.next + 1) !in log.table
    ensures var lines := [Event(None, row)];
            var once := ImportFile(log, lines, valid, newId);
            |ImportFile(once, lines, valid, newId).table| == |once.table| + 1 == |log.table| + 2
  {
    var line := Event(None, row);
    var fresh0 := log.(aborted := false);
    var once := ImportLine(fresh0, line, valid, newId);
    OneLine(fresh0, line, valid, newId);
    OneLine(once, line, valid, newId);
  }

  lemma OneLine(log: Log, line: Line, valid: Record -> bool, newId: nat -> string)
    ensures ImportLines(log, [line], valid, newId) == ImportLine(log, line, valid, newId)
  {
    assert [line][..0] == [];
    assert ImportLines(log, [], valid, newId) == log;
  }

  // ---------------------------------------------------------- the import itself

  class Importer {
    var db: Database
    var log: Log

    constructor (db: Database, log: Log)
      ensures this.db == db && this.log == log
    {
      this.db, this.log := db, log;
    }

    /** Sections one after another, all or nothing. */
    method ImportConfiguration(cfg: Config, rules: Rules) returns (ok: bool)
      modifies this`db
      ensures ok <==> ImportConfig(old(db), cfg, rules).Some?
      ensures db == AfterImport(old(db), cfg, rules)
    {
      var before := db;
      if !rules.settings(cfg.settings) || (cfg.vmDefaults.Some? && !rules.vmDefaults(cfg.vmDefaults.value)) {
        return false;
      }
      db := db.(settings := Some(cfg.settings));
      if cfg.vmDefaults.Some? {
        db := db.(vmDefaults := cfg.vmDefaults);
      }
      var groups := ImportRows(db.groups, GroupEntries(cfg.groups), rules.group);
      if groups.None? {
        db := before;
        return false;
      }
      db := db.(groups := groups.value);
      var assignments := ImportRows(db.assignments, AllAssignments(cfg, db.groups), rules.assignment);
      var profiles := ImportRows(db.profiles, cfg.profiles, rules.profile);
      var schedules := ImportRows(db.schedules, cfg.schedules, rules.schedule);
      var tokens := ImportRows(db.tokens, cfg.tokens, rules.token);
      var webhooks := ImportRows(db.webhooks, cfg.webhooks, rules.webhook);
      ok := assignments.Some? && profiles.Some? && schedules.Some? && tokens.Some? && webhooks.Some?;
      if ok {
        db := db.(assignments := assignments.value, profiles := profiles.value,
                  schedules := schedules.value, tokens := tokens.value, webhooks := webhooks.value);
      } else {
        db := before;
      }
    }

    /** A malformed or invalid line is skipped and the loop goes on; a generated id that is taken ends it. */
    method ImportEventFile(lines: seq<Line>, valid: Record -> bool, newId: nat -> string)
      modifies this`log
      ensures log == ImportFile(old(log), lines, valid, newId)
    {
      log := log.(aborted := false);
      ghost var start := log;
      var i := 0;
      while i < |lines| && !log.aborted
        invariant 0 <= i <= |lines|
        invariant log == ImportLines(start, lines[..i], valid, newId)
      {
        assert lines[..i + 1][..i] == lines[..i];
        match lines[i] {
          case Event(id, row) =>
            if id.Some? && id.value in log.table {
              log := log.(imported := log.imported + 1);
            } else if valid(row) {
              if id.None? && newId(log.next) in log.table {
                log := log.(next := log.next + 1, aborted := true);
              } else {
                var key := if id.Some? then id.value else newId(log.next);
                var next := if id.Some? then log.next else log.next + 1;
                log := Log(log.table[key := row], next, log.imported + 1, false);
              }
            }
          case _ =>
        }
        i := i + 1;
      }
      AbortSkipsTheRest(start, lines, i, valid, newId);
    }
  }

  /** Nothing is imported after an abort. */
  lemma {:induction false} AbortSkipsTheRest(log: Log, lines: seq<Line>, n: nat, valid: Record -> bool, newId: nat -> string)
    requires n <= |lines| && (n == |lines| || ImportLines(log, lines[..n], valid, newId).aborted)
    ensures ImportLines(log, lines, valid, newId) == ImportLines(log, lines[..n], valid, newId)
  {
    if n == |lines| {
      assert lines[..n] == lines;
    } else {
      var k := |lines| - 1;
      assert lines[..k][..n] == lines[..n];
      AbortSkipsTheRest(log, lines[..k], n, valid, newId);
    }
  }
}
