/**
 * One run of the tick job over the schedule table: which rows fire, which commands are attempted
 * on which VMs, and what is recorded about them.
 */
module SchedulerJob {
  import opened Wrappers
  import opened Calendar
  import opened Scheduler

  datatype Command = Command(action: Action, vm: string)

  datatype Outcome = Success | Partial | Failed | NoTargets

  datatype Event = Event(schedule: string, outcome: Outcome)

  /** Group membership; `ungrouped` is what an unknown group name selects. */
  datatype Groups = Groups(members: map<string, seq<string>>, ungrouped: seq<string>)

  /** Whether the n-th command that the job runs fails. */
  type Failures = nat -> bool

  function Targets(s: Schedule, groups: Groups): seq<string> {
    match s.groupName
    case None => s.vmNames
    case Some(g) => if g in groups.members then groups.members[g] else groups.ungrouped
  }

  /** Every target once, in order; a playbook schedule runs no command yet. */
  function Attempts(s: Schedule, groups: Groups): seq<Command> {
    if s.action.Playbook? then []
    else
      var targets := Targets(s, groups);
      seq(|targets|, i requires 0 <= i < |targets| => Command(s.action, targets[i]))
  }

  function FailureCount(fails: Failures, start: nat, n: nat): nat {
    if n == 0 then 0
    else FailureCount(fails, start, n - 1) + if fails(start + n - 1) then 1 else 0
  }

  function OutcomeOf(s: Schedule, groups: Groups, fails: Failures, start: nat): Outcome {
    var n := |Targets(s, groups)|;
    if n == 0 then NoTargets
    else
      var errors := FailureCount(fails, start, |Attempts(s, groups)|);
      if errors == 0 then Success else if errors < n then Partial else Failed
  }

  /** The classification says what it is named for: none, some but not all, or all failed. */
  lemma {:induction false} FailureCountMeaning(fails: Failures, start: nat, n: nat)
    ensures FailureCount(fails, start, n) <= n
    ensures FailureCount(fails, start, n) == 0 <==> forall k :: start <= k < start + n ==> !fails(k)
    ensures FailureCount(fails, start, n) == n <==> forall k :: start <= k < start + n ==> fails(k)
  {
    if n > 0 {
      FailureCountMeaning(fails, start, n - 1);
    }
  }

  lemma OutcomeMeaning(s: Schedule, groups: Groups, fails: Failures, start: nat)
    requires !s.action.Playbook? && Targets(s, groups) != []
    ensures var n := |Targets(s, groups)|;
            var o := OutcomeOf(s, groups, fails, start);
            && (o == Success <==> forall k :: start <= k < start + n ==> !fails(k))
            && (o == Failed <==> forall k :: start <= k < start + n ==> fails(k))
            && o != NoTargets
  {
    var n := |Targets(s, groups)|;
    FailureCountMeaning(fails, start, n);
    assert start <= start + n - 1 < start + n;
  }

  // ---------------------------------------------------------- the whole tick

  datatype Tick = Tick(rows: seq<Schedule>, commands: seq<Command>, events: seq<Event>)

  predicate AllValid(rows: seq<Schedule>) {
    forall i :: 0 <= i < |rows| ==> ValidTime(rows[i].time)
  }

  function TickAll(rows: seq<Schedule>, now: Instant, groups: Groups, fails: Failures): (t: Tick)
    requires AllValid(rows)
    ensures |t.rows| == |rows|
  {
    if rows == [] then Tick([], [], [])
    else
      var t, s := TickAll(rows[..|rows| - 1], now, groups, fails), rows[|rows| - 1];
      if !Fires(s, now) then t.(rows := t.rows + [s])
      else
        Tick(
          t.rows + [TickOne(s, now)],
          t.commands + Attempts(s, groups),
          t.events + [Event(s.name, OutcomeOf(s, groups, fails, |t.commands|))])
  }

  /** The rows that fire, in table order. */
  function FiringRows(rows: seq<Schedule>, now: Instant): seq<Schedule>
    requires AllValid(rows)
  {
    if rows == [] then []
    else
      FiringRows(rows[..|rows| - 1], now) +
      if Fires(rows[|rows| - 1], now) then [rows[|rows| - 1]] else []
  }

  function AllAttempts(rows: seq<Schedule>, groups: Groups): seq<Command> {
    if rows == [] then []
    else AllAttempts(rows[..|rows| - 1], groups) + Attempts(rows[|rows| - 1], groups)
  }

  /** A tick acts on each row alone. */
  lemma {:induction false} RowsTickAlone(rows: seq<Schedule>, now: Instant, groups: Groups, fails: Failures, i: nat)
    requires AllValid(rows) && i < |rows|
    ensures TickAll(rows, now, groups, fails).rows[i] == TickOne(rows[i], now)
  {
    if i < |rows| - 1 {
      RowsTickAlone(rows[..|rows| - 1], now, groups, fails, i);
    }
  }

  /**
   * Whatever fails, a tick attempts exactly the targets of the firing rows, each once and in
   * order, and records one event for each firing row.
   */
  lemma {:induction false} TickConservesAttempts(rows: seq<Schedule>, now: Instant, groups: Groups, fails: Failures)
    requires AllValid(rows)
    ensures TickAll(rows, now, groups, fails).commands == AllAttempts(FiringRows(rows, now), groups)
    ensures |TickAll(rows, now, groups, fails).events| == |FiringRows(rows, now)|
  {
    if rows != [] {
      var rest, s := rows[..|rows| - 1], rows[|rows| - 1];
      TickConservesAttempts(rest, now, groups, fails);
      var firing := FiringRows(rest, now);
      if Fires(s, now) {
        assert (firing + [s])[..|firing|] == firing;
      } else {
        assert FiringRows(rows, now) == firing;
      }
    }
  }

  /** The VMs that a schedule names, or the members of its group; without such a group, the ungrouped VMs. */
  predicate IsTargetList(s: Schedule, groups: Groups, names: seq<string>) {
    match s.groupName
    case None => names == s.vmNames
    case Some(g) => (g in groups.members && names == groups.members[g]) || (g !in groups.members && names == groups.ungrouped)
  }

  /** What the n attempts of one firing row amount to. */
  predicate Classifies(o: Outcome, action: Action, fails: Failures, n: nat) {
    if n == 0 then o == NoTargets
    else if action.Playbook? then o == Success
    else
      && (o == Success <==> forall k :: 0 <= k < n ==> !fails(k))
      && (o == Failed <==> forall k :: 0 <= k < n ==> fails(k))
      && o != NoTargets
  }

  /** One row that fires: each of its targets is attempted once, in order, and one event says how it went. */
  lemma OneRowFires(s: Schedule, now: Instant, groups: Groups, fails: Failures, names: seq<string>)
    requires ValidTime(s.time) && Fires(s, now) && IsTargetList(s, groups, names)
    ensures AllValid([s])
    ensures var t := TickAll([s], now, groups, fails);
            && t.rows == [s.(lastFired := Some(now))]
            && |t.commands| == (if s.action == Playbook then 0 else |names|)
            && (forall i :: 0 <= i < |t.commands| ==> t.commands[i] == Command(s.action, names[i]))
            && |t.events| == 1 && t.events[0].schedule == s.name
            && Classifies(t.events[0].outcome, s.action, fails, |names|)
  {
    assert [s][..0] == [];
    var none := TickAll([], now, groups, fails);
    assert none == Tick([], [], []);
    assert TickAll([s], now, groups, fails) ==
           Tick([] + [TickOne(s, now)], [] + Attempts(s, groups), [] + [Event(s.name, OutcomeOf(s, groups, fails, 0))]);
    if s.action != Playbook && names != [] {
      OutcomeMeaning(s, groups, fails, 0);
    } else if names != [] {
      assert FailureCount(fails, 0, 0) == 0;
    }
  }

  // ----------------------------------------------------------- many ticks

  /** A row that fired, and the tick's time. */
  datatype Mark = Mark(row: nat, now: Instant)

  function Marks(rows: seq<Schedule>, now: Instant): (marks: seq<Mark>)
    requires AllValid(rows)
    ensures forall k :: 0 <= k < |marks| ==> marks[k].row < |rows|
  {
    if rows == [] then []
    else Marks(rows[..|rows| - 1], now) + if Fires(rows[|rows| - 1], now) then [Mark(|rows| - 1, now)] else []
  }

  predicate MarksIn(marks: seq<Mark>, n: nat) {
    forall k :: 0 <= k < |marks| ==> marks[k].row < n
  }

  /** The rows that the marks name. */
  function Marked(rows: seq<Schedule>, marks: seq<Mark>): seq<Schedule>
    requires MarksIn(marks, |rows|)
  {
    seq(|marks|, k requires 0 <= k < |marks| => rows[marks[k].row])
  }

  lemma {:induction false} FiringRowsAreMarked(rows: seq<Schedule>, now: Instant)
    requires AllValid(rows)
    ensures FiringRows(rows, now) == Marked(rows, Marks(rows, now))
  {
    if rows != [] {
      FiringRowsAreMarked(rows[..|rows| - 1], now);
    }
  }

  /** All that a run of ticks has done: `marks` says which row each event and its commands come from. */
  datatype Ledger = Ledger(rows: seq<Schedule>, commands: seq<Command>, events: seq<Event>, marks: seq<Mark>)

  /** Ticks one after another; `fails` is asked anew for each of them. */
  function TickTimes(rows: seq<Schedule>, ticks: seq<Instant>, groups: Groups, fails: nat -> Failures): (r: Ledger)
    requires AllValid(rows)
    ensures |r.rows| == |rows|
    ensures forall i :: 0 <= i < |rows| ==> r.rows[i] == Run(rows[i], ticks).schedule
  {
    if ticks == [] then Ledger(rows, [], [], [])
    else
      var n := |ticks| - 1;
      var before, now := TickTimes(rows, ticks[..n], groups, fails), ticks[n];
      var t := TickAll(before.rows, now, groups, fails(n));
      assert forall i :: 0 <= i < |rows| ==> t.rows[i] == TickOne(before.rows[i], now) by {
        forall i | 0 <= i < |rows| {
          RowsTickAlone(before.rows, now, groups, fails(n), i);
        }
      }
      Ledger(t.rows, before.commands + t.commands, before.events + t.events, before.marks + Marks(before.rows, now))
  }

  /** One event for each mark, under its row's name. */
  predicate EventsNamed(rows: seq<Schedule>, events: seq<Event>, marks: seq<Mark>) {
    && MarksIn(marks, |rows|)
    && |events| == |marks|
    && forall k :: 0 <= k < |events| ==> events[k].schedule == rows[marks[k].row].name
  }

  /** Events and commands are those of the marked rows, in order. */
  predicate Accounts(rows: seq<Schedule>, r: Ledger, groups: Groups) {
    && EventsNamed(rows, r.events, r.marks)
    && r.commands == AllAttempts(Marked(rows, r.marks), groups)
  }

  lemma {:induction false} EventsFollowFirings(rows: seq<Schedule>, now: Instant, groups: Groups, fails: Failures)
    requires AllValid(rows)
    ensures var events, firing := TickAll(rows, now, groups, fails).events, FiringRows(rows, now);
            |events| == |firing| && forall k :: 0 <= k < |events| ==> events[k].schedule == firing[k].name
  {
    if rows != [] {
      EventsFollowFirings(rows[..|rows| - 1], now, groups, fails);
    }
  }

  /** The outcome of an event is that of its row's own attempts, which follow those of the rows before. */
  lemma {:induction false} OutcomesFollowAttempts(rows: seq<Schedule>, now: Instant, groups: Groups, fails: Failures, k: nat)
    requires AllValid(rows) && k < |FiringRows(rows, now)|
    ensures var t, firing := TickAll(rows, now, groups, fails), FiringRows(rows, now);
            && k < |t.events|
            && t.events[k].outcome == OutcomeOf(firing[k], groups, fails, |AllAttempts(firing[..k], groups)|)
  {
    var rest, s := rows[..|rows| - 1], rows[|rows| - 1];
    EventsFollowFirings(rest, now, groups, fails);
    var before := FiringRows(rest, now);
    if k < |before| {
      OutcomesFollowAttempts(rest, now, groups, fails, k);
      assert FiringRows(rows, now)[..k] == before[..k];
    } else {
      TickConservesAttempts(rest, now, groups, fails);
      assert FiringRows(rows, now)[..k] == before;
    }
  }

  lemma {:induction false} AllAttemptsAppend(a: seq<Schedule>, b: seq<Schedule>, groups: Groups)
    ensures AllAttempts(a + b, groups) == AllAttempts(a, groups) + AllAttempts(b, groups)
  {
    if b == [] {
      assert a + b == a;
    } else {
      var rest, last, ab := b[..|b| - 1], b[|b| - 1], a + b;
      AllAttemptsAppend(a, rest, groups);
      assert ab[..|ab| - 1] == a + rest && ab[|ab| - 1] == last;
      Regroup(AllAttempts(a, groups), AllAttempts(rest, groups), Attempts(last, groups));
    }
  }

  lemma Regroup(a: seq<Command>, b: seq<Command>, c: seq<Command>)
    ensures (a + b) + c == a + (b + c)
  {
  }

  /** The rows are the same but for when they last fired. */
  predicate SameButFired(a: seq<Schedule>, b: seq<Schedule>) {
    |a| == |b| && forall i :: 0 <= i < |a| ==> a[i] == b[i].(lastFired := a[i].lastFired)
  }

  lemma {:induction false} SameAttempts(a: seq<Schedule>, b: seq<Schedule>, groups: Groups)
    requires SameButFired(a, b)
    ensures AllAttempts(a, groups) == AllAttempts(b, groups)
  {
    if a != [] {
      SameAttempts(a[..|a| - 1], b[..|b| - 1], groups);
      assert Attempts(a[|a| - 1], groups) == Attempts(b[|b| - 1], groups);
    }
  }

  lemma TickAccounts(rows: seq<Schedule>, now: Instant, groups: Groups, fails: Failures)
    requires AllValid(rows)
    ensures var t := TickAll(rows, now, groups, fails);
            Accounts(rows, Ledger(t.rows, t.commands, t.events, Marks(rows, now)), groups)
  {
    EventsFollowFirings(rows, now, groups, fails);
    TickConservesAttempts(rows, now, groups, fails);
    FiringRowsAreMarked(rows, now);
  }

  lemma EventsAdd(rows: seq<Schedule>, a: seq<Event>, m: seq<Mark>, b: seq<Event>, n: seq<Mark>)
    requires EventsNamed(rows, a, m) && EventsNamed(rows, b, n)
    ensures EventsNamed(rows, a + b, m + n)
  {
  }

  lemma AttemptsAdd(rows: seq<Schedule>, m: seq<Mark>, n: seq<Mark>, groups: Groups)
    requires MarksIn(m, |rows|) && MarksIn(n, |rows|)
    ensures MarksIn(m + n, |rows|)
    ensures AllAttempts(Marked(rows, m + n), groups) ==
            AllAttempts(Marked(rows, m), groups) + AllAttempts(Marked(rows, n), groups)
  {
    assert Marked(rows, m + n) == Marked(rows, m) + Marked(rows, n);
    AllAttemptsAppend(Marked(rows, m), Marked(rows, n), groups);
  }

  /** What accounts for a ledger does so under any values of `lastFired`. */
  lemma AccountsForSame(rows: seq<Schedule>, rows': seq<Schedule>, r: Ledger, groups: Groups)
    requires Accounts(rows', r, groups) && SameButFired(rows', rows)
    ensures Accounts(rows, r, groups)
  {
    SameAttempts(Marked(rows', r.marks), Marked(rows, r.marks), groups);
  }

  lemma AccountsAdd(rows: seq<Schedule>, a: Ledger, b: Ledger, last: seq<Schedule>, groups: Groups)
    requires Accounts(rows, a, groups) && Accounts(rows, b, groups)
    ensures Accounts(rows, Ledger(last, a.commands + b.commands, a.events + b.events, a.marks + b.marks), groups)
  {
    EventsAdd(rows, a.events, a.marks, b.events, b.marks);
    AttemptsAdd(rows, a.marks, b.marks, groups);
  }

  /** Over any ticks and whatever fails, the events and the commands are those of the rows that fired. */
  lemma {:induction false} TicksAccount(rows: seq<Schedule>, ticks: seq<Instant>, groups: Groups, fails: nat -> Failures)
    requires AllValid(rows)
    ensures Accounts(rows, TickTimes(rows, ticks, groups, fails), groups)
  {
    if ticks == [] {
      assert Marked(rows, []) == [];
    } else {
      var n := |ticks| - 1;
      var before := TickTimes(rows, ticks[..n], groups, fails);
      var t := TickAll(before.rows, ticks[n], groups, fails(n));
      TicksAccount(rows, ticks[..n], groups, fails);
      TickAccounts(before.rows, ticks[n], groups, fails(n));
      var tick := Ledger(t.rows, t.commands, t.events, Marks(before.rows, ticks[n]));
      AccountsForSame(rows, before.rows, tick, groups);
      AccountsAdd(rows, before, tick, t.rows, groups);
    }
  }

  /** How often a row fired in a minute. */
  function CountMarks(marks: seq<Mark>, row: nat, minute: nat): nat {
    if marks == [] then 0
    else
      var last := marks[|marks| - 1];
      CountMarks(marks[..|marks| - 1], row, minute) + if last.row == row && MinuteOf(last.now) == minute then 1 else 0
  }

  lemma {:induction false} CountMarksAppend(a: seq<Mark>, b: seq<Mark>, row: nat, minute: nat)
    ensures CountMarks(a + b, row, minute) == CountMarks(a, row, minute) + CountMarks(b, row, minute)
  {
    if b == [] {
      assert a + b == a;
    } else {
      assert (a + b)[..|a + b| - 1] == a + b[..|b| - 1];
      CountMarksAppend(a, b[..|b| - 1], row, minute);
    }
  }

  lemma CountMarksSnoc(marks: seq<Mark>, mark: Mark, row: nat, minute: nat)
    ensures CountMarks(marks + [mark], row, minute) ==
            CountMarks(marks, row, minute) + if mark.row == row && MinuteOf(mark.now) == minute then 1 else 0
  {
    assert (marks + [mark])[..|marks|] == marks;
  }

  lemma MarksStep(rows: seq<Schedule>, s: Schedule, now: Instant, fires: bool)
    requires AllValid(rows) && ValidTime(s.time) && fires == Fires(s, now)
    ensures AllValid(rows + [s])
    ensures Marks(rows + [s], now) == if fires then Marks(rows, now) + [Mark(|rows|, now)] else Marks(rows, now)
  {
    assert (rows + [s])[..|rows|] == rows;
  }

  lemma {:induction false} CountMarksOfTick(rows: seq<Schedule>, now: Instant, row: nat, minute: nat)
    requires AllValid(rows)
    ensures CountMarks(Marks(rows, now), row, minute) ==
            if row < |rows| && Fires(rows[row], now) && MinuteOf(now) == minute then 1 else 0
  {
    if rows != [] {
      var rest, s := rows[..|rows| - 1], rows[|rows| - 1];
      var fires := Fires(s, now);
      assert rows == rest + [s];
      CountMarksOfTick(rest, now, row, minute);
      MarksStep(rest, s, now, fires);
      CountMarksSnoc(Marks(rest, now), Mark(|rest|, now), row, minute);
    }
  }

  /** Each row of the table fires as it would alone. */
  lemma {:induction false} MarksFollowRun(rows: seq<Schedule>, ticks: seq<Instant>, groups: Groups,
                                          fails: nat -> Failures, row: nat, minute: nat)
    requires AllValid(rows) && row < |rows|
    ensures CountMarks(TickTimes(rows, ticks, groups, fails).marks, row, minute) ==
            CountIn(Run(rows[row], ticks).fired, minute)
  {
    if ticks != [] {
      var n := |ticks| - 1;
      var before := TickTimes(rows, ticks[..n], groups, fails);
      MarksFollowRun(rows, ticks[..n], groups, fails, row, minute);
      CountMarksAppend(before.marks, Marks(before.rows, ticks[n]), row, minute);
      CountMarksOfTick(before.rows, ticks[n], row, minute);
      var fired := Run(rows[row], ticks[..n]).fired;
      assert (fired + [ticks[n]])[..|fired|] == fired;
    }
  }

  /**
   * Exactly once for the whole table: over regular ticks, whatever the other rows do and whatever
   * fails, an enabled row has exactly one event, and its targets are attempted once, in each
   * ticked minute that matches it, and in no other; but for a withheld first match.
   */
  lemma EventsExactlyOnce(rows: seq<Schedule>, ticks: seq<Instant>, groups: Groups, fails: nat -> Failures,
                          first: nat, row: nat, minute: nat)
    requires AllValid(rows) && row < |rows| && rows[row].enabled && Regular(ticks, first)
    ensures var r, s := TickTimes(rows, ticks, groups, fails), rows[row];
            && Accounts(rows, r, groups)
            && CountMarks(r.marks, row, minute) ==
               if TickIn(ticks, minute) && MatchesMinute(s, minute) && !Withheld(s, ticks, minute) then 1 else 0
  {
    TicksAccount(rows, ticks, groups, fails);
    MarksFollowRun(rows, ticks, groups, fails, row, minute);
    ExactlyOnce(rows[row], ticks, first, minute);
  }

  class Job {
    var rows: seq<Schedule>
    var commands: seq<Command>
    var events: seq<Event>

    constructor (rows: seq<Schedule>)
      ensures this.rows == rows && commands == [] && events == []
    {
      this.rows, commands, events := rows, [], [];
    }

    /** Each failing target is noted and the loop goes on. */
    method Execute(s: Schedule, targets: seq<string>, groups: Groups, fails: Failures) returns (o: Outcome)
      requires targets == Targets(s, groups) != []
      modifies this`commands
      ensures commands == old(commands) + Attempts(s, groups)
      ensures o == OutcomeOf(s, groups, fails, |old(commands)|)
    {
      if s.action.Playbook? {
        return Success;
      }
      var errors: seq<string> := [];
      ghost var start := |commands|;
      var i := 0;
      while i < |targets|
        invariant 0 <= i <= |targets|
        invariant commands == old(commands) + Attempts(s, groups)[..i]
        invariant |errors| == FailureCount(fails, start, i)
      {
        if fails(|commands|) {
          errors := errors + [targets[i]];
        }
        commands := commands + [Command(s.action, targets[i])];
        i := i + 1;
      }
      assert Attempts(s, groups)[..i] == Attempts(s, groups);
      if errors == [] {
        return Success;
      }
      if |errors| < |targets| {
        return Partial;
      }
      o := Failed;
    }

    method Fire(s: Schedule, groups: Groups, fails: Failures)
      modifies this`commands, this`events
      ensures commands == old(commands) + Attempts(s, groups)
      ensures events == old(events) + [Event(s.name, OutcomeOf(s, groups, fails, |old(commands)|))]
    {
      var targets := Targets(s, groups);
      if targets == [] {
        events := events + [Event(s.name, NoTargets)];
      } else {
        var o := Execute(s, targets, groups, fails);
        events := events + [Event(s.name, o)];
      }
    }

    method Perform(now: Instant, groups: Groups, fails: Failures)
      requires AllValid(rows) && commands == [] && events == []
      modifies this
      ensures Tick(rows, commands, events) == TickAll(old(rows), now, groups, fails)
    {
      ghost var all := rows;
      var i := 0;
      while i < |rows|
        invariant 0 <= i <= |rows| == |all|
        invariant rows[i..] == all[i..]
        invariant Tick(rows[..i], commands, events) == TickAll(all[..i], now, groups, fails)
      {
        var s := rows[i];
        TickAllStep(all, i, now, groups, fails);
        ghost var done := rows[..i];
        if Fires(s, now) {
          rows := rows[i := s.(lastFired := Some(now))];
          Fire(s, groups, fails);
        }
        i := i + 1;
        assert rows[..i] == done + [TickOne(s, now)];
      }
      assert all[..|all|] == all;
      assert rows[..|rows|] == rows;
    }
  }

  lemma TickAllStep(rows: seq<Schedule>, i: nat, now: Instant, groups: Groups, fails: Failures)
    requires AllValid(rows) && i < |rows|
    ensures var t, s := TickAll(rows[..i], now, groups, fails), rows[i];
            TickAll(rows[..i + 1], now, groups, fails) ==
            if Fires(s, now) then
              Tick(
                t.rows + [TickOne(s, now)],
                t.commands + Attempts(s, groups),
                t.events + [Event(s.name, OutcomeOf(s, groups, fails, |t.commands|))])
            else t.(rows := t.rows + [s])
  {
    assert rows[..i + 1][..i] == rows[..i];
  }
}
