/**
 * Overlapping runs of the tick job, seen from one schedule row, as interleaved steps.
 *
 * A job reads the clock when it begins, loads its copy of the row later, and decides on that copy;
 * the queue runs at most `workers` jobs at a time.
 */
module SchedulerOverlap {
  import opened Wrappers
  import opened Calendar
  import opened Scheduler

  /**
   * `loaded` firings had been written when the copy was taken, and `before` when the job decided
   * on it, at clock time `at`.
   */
  datatype Phase =
    | Begun
    | Loaded(loaded: nat, last: Option<Instant>)
    | Decided(loaded: nat, last: Option<Instant>, before: nat, at: Instant)

  datatype Job = Job(now: Instant, phase: Phase)

  /** One firing: its write happens at clock time `at`, with the jobs of `running` under way. */
  datatype Firing = Firing(job: nat, now: Instant, at: Instant, loaded: nat, running: set<nat>)

  datatype State = State(
    clock: Instant,
    last: Option<Instant>,
    jobs: map<nat, Job>,
    running: set<nat>,
    firings: seq<Firing>)

  datatype Event =
    | Advance(seconds: nat)
    | Begin(job: nat)
    | Load(job: nat)
    | Decide(job: nat)
    | Finish(job: nat)

  predicate Enabled(st: State, e: Event, workers: nat) {
    match e
    case Advance(_) => true
    case Begin(j) => j !in st.jobs && |st.running| < workers
    case Load(j) => j in st.jobs && st.jobs[j].phase.Begun?
    case Decide(j) => j in st.jobs && st.jobs[j].phase.Loaded?
    case Finish(j) => j in st.jobs && st.jobs[j].phase.Decided?
  }

  function Next(s: Schedule, st: State, e: Event, workers: nat): State
    requires ValidTime(s.time)
  {
    if !Enabled(st, e, workers) then st else
    match e
    case Advance(seconds) => st.(clock := st.clock + seconds)
    case Begin(j) => st.(jobs := st.jobs[j := Job(st.clock, Begun)], running := st.running + {j})
    case Load(j) => st.(jobs := st.jobs[j := st.jobs[j].(phase := Loaded(|st.firings|, st.last))])
    case Decide(j) =>
      var job := st.jobs[j];
      var phase := Decided(job.phase.loaded, job.phase.last, |st.firings|, st.clock);
      var jobs := st.jobs[j := job.(phase := phase)];
      if Fires(s.(lastFired := job.phase.last), job.now) then
        st.(jobs := jobs,
            last := Some(job.now),
            firings := st.firings + [Firing(j, job.now, st.clock, job.phase.loaded, st.running)])
      else st.(jobs := jobs)
    case Finish(j) => st.(running := st.running - {j})
  }

  function Initial(s: Schedule, clock: Instant): State {
    State(clock, s.lastFired, map[], {}, [])
  }

  function Execute(s: Schedule, clock: Instant, events: seq<Event>, workers: nat): State
    requires ValidTime(s.time)
  {
    if events == [] then Initial(s, clock)
    else Next(s, Execute(s, clock, events[..|events| - 1], workers), events[|events| - 1], workers)
  }

  // ---------------------------------------------------------------- invariants

  /** What the row holds after some firings. */
  function LastOf(s: Schedule, firings: seq<Firing>): Option<Instant> {
    if firings == [] then s.lastFired else Some(firings[|firings| - 1].now)
  }

  predicate JobOk(s: Schedule, st: State, j: nat)
    requires j in st.jobs
  {
    var job := st.jobs[j];
    && job.now <= st.clock
    && (!job.phase.Decided? ==> j in st.running)
    && (job.phase.Loaded? ==>
          && job.phase.loaded <= |st.firings|
          && job.phase.last == LastOf(s, st.firings[..job.phase.loaded])
          && forall p :: job.phase.loaded <= p < |st.firings| ==> j in st.firings[p].running)
  }

  predicate FiringOk(s: Schedule, firings: seq<Firing>, q: nat)
    requires ValidTime(s.time) && q < |firings|
  {
    var f := firings[q];
    && f.loaded <= q
    && f.now <= f.at
    && Fires(s.(lastFired := LastOf(s, firings[..f.loaded])), f.now)
    && f.job in f.running
    && forall p :: f.loaded <= p < q ==> f.job in firings[p].running
  }

  ghost predicate JobsInv(s: Schedule, st: State) {
    && st.last == LastOf(s, st.firings)
    && (forall j :: j in st.jobs ==> JobOk(s, st, j))
    && (forall j :: j in st.running ==> j in st.jobs)
  }

  /** The list of firings by itself: each decided on what it had loaded, in order, once per job. */
  ghost predicate Coherent(s: Schedule, fs: seq<Firing>, workers: nat)
    requires ValidTime(s.time)
  {
    && (forall q :: 0 <= q < |fs| ==> FiringOk(s, fs, q) && |fs[q].running| <= workers)
    && (forall p, q :: 0 <= p < q < |fs| ==> fs[p].at <= fs[q].at && fs[p].job != fs[q].job)
  }

  predicate Backed(st: State, f: Firing) {
    && f.at <= st.clock
    && f.job in st.jobs && st.jobs[f.job].phase.Decided? && st.jobs[f.job].now == f.now
  }

  ghost predicate FiringsInv(s: Schedule, st: State, workers: nat)
    requires ValidTime(s.time)
  {
    && |st.running| <= workers
    && Coherent(s, st.firings, workers)
    && forall q :: 0 <= q < |st.firings| ==> Backed(st, st.firings[q])
  }

  lemma FiringKeepsJob(s: Schedule, st: State, f: Firing, j: nat)
    requires j in st.jobs && JobOk(s, st, j) && f.running == st.running
    ensures JobOk(s, st.(last := Some(f.now), firings := st.firings + [f]), j)
  {
    var job := st.jobs[j];
    if job.phase.Loaded? {
      assert (st.firings + [f])[..job.phase.loaded] == st.firings[..job.phase.loaded];
    }
  }

  lemma StepKeepsJobs(s: Schedule, st: State, e: Event, workers: nat)
    requires ValidTime(s.time) && JobsInv(s, st)
    ensures JobsInv(s, Next(s, st, e, workers))
  {
    var st' := Next(s, st, e, workers);
    assert st.firings[..|st.firings|] == st.firings;
    forall j | j in st'.jobs
      ensures JobOk(s, st', j)
    {
      if j in st.jobs {
        assert JobOk(s, st, j);
        if st'.firings != st.firings {
          FiringKeepsJob(s, st, st'.firings[|st.firings|], j);
        }
      }
    }
  }

  lemma FiringOkInLonger(s: Schedule, firings: seq<Firing>, f: Firing, q: nat)
    requires ValidTime(s.time) && q < |firings| && FiringOk(s, firings, q)
    ensures FiringOk(s, firings + [f], q)
  {
    assert (firings + [f])[..firings[q].loaded] == firings[..firings[q].loaded];
  }

  lemma AppendKeepsCoherent(s: Schedule, fs: seq<Firing>, f: Firing, workers: nat)
    requires ValidTime(s.time) && Coherent(s, fs, workers)
    requires FiringOk(s, fs + [f], |fs|) && |f.running| <= workers
    requires forall p :: 0 <= p < |fs| ==> fs[p].at <= f.at && fs[p].job != f.job
    ensures Coherent(s, fs + [f], workers)
  {
    forall q | 0 <= q < |fs|
      ensures FiringOk(s, fs + [f], q)
    {
      FiringOkInLonger(s, fs, f, q);
    }
  }

  lemma DecideIsFiringOk(s: Schedule, st: State, j: nat)
    requires ValidTime(s.time) && JobsInv(s, st) && j in st.jobs && st.jobs[j].phase.Loaded?
    requires Fires(s.(lastFired := st.jobs[j].phase.last), st.jobs[j].now)
    ensures var f := Firing(j, st.jobs[j].now, st.clock, st.jobs[j].phase.loaded, st.running);
            FiringOk(s, st.firings + [f], |st.firings|)
  {
    assert JobOk(s, st, j);
    var f := Firing(j, st.jobs[j].now, st.clock, st.jobs[j].phase.loaded, st.running);
    assert (st.firings + [f])[..f.loaded] == st.firings[..f.loaded];
  }

  /** Steps never take back what backs a firing. */
  lemma StepKeepsBacked(s: Schedule, st: State, e: Event, workers: nat, f: Firing)
    requires ValidTime(s.time) && Backed(st, f)
    ensures Backed(Next(s, st, e, workers), f)
    ensures e.Decide? && Enabled(st, e, workers) ==> e.job != f.job
  {
  }

  lemma RunningIsBounded(s: Schedule, st: State, e: Event, workers: nat)
    requires ValidTime(s.time) && |st.running| <= workers
    ensures |Next(s, st, e, workers).running| <= workers
  {
  }

  /** A step leaves the firings alone or adds the one that its job decides on. */
  lemma StepAddsFiring(s: Schedule, st: State, e: Event, workers: nat)
    requires ValidTime(s.time) && JobsInv(s, st)
    ensures var st' := Next(s, st, e, workers);
            st'.firings != st.firings ==>
              && e.Decide? && Enabled(st, e, workers)
              && var f := Firing(e.job, st.jobs[e.job].now, st.clock, st.jobs[e.job].phase.loaded, st.running);
              && st'.firings == st.firings + [f]
              && FiringOk(s, st.firings + [f], |st.firings|)
              && Backed(st', f)
  {
    if Next(s, st, e, workers).firings != st.firings {
      assert JobOk(s, st, e.job);
      DecideIsFiringOk(s, st, e.job);
    }
  }

  lemma StepKeepsFirings(s: Schedule, st: State, e: Event, workers: nat)
    requires ValidTime(s.time) && JobsInv(s, st) && FiringsInv(s, st, workers)
    ensures FiringsInv(s, Next(s, st, e, workers), workers)
  {
    var st' := Next(s, st, e, workers);
    RunningIsBounded(s, st, e, workers);
    StepAddsFiring(s, st, e, workers);
    forall q | 0 <= q < |st.firings|
      ensures Backed(st', st.firings[q]) && st.firings[q].at <= st.clock
      ensures e.Decide? && Enabled(st, e, workers) ==> e.job != st.firings[q].job
    {
      StepKeepsBacked(s, st, e, workers, st.firings[q]);
    }
    if st'.firings != st.firings {
      AppendKeepsCoherent(s, st.firings, st'.firings[|st.firings|], workers);
    }
  }

  lemma {:induction false} InvHolds(s: Schedule, clock: Instant, events: seq<Event>, workers: nat)
    requires ValidTime(s.time)
    ensures JobsInv(s, Execute(s, clock, events, workers))
    ensures FiringsInv(s, Execute(s, clock, events, workers), workers)
  {
    if events != [] {
      var rest, e := events[..|events| - 1], events[|events| - 1];
      InvHolds(s, clock, rest, workers);
      StepKeepsJobs(s, Execute(s, clock, rest, workers), e, workers);
      StepKeepsFirings(s, Execute(s, clock, rest, workers), e, workers);
    }
  }

  /**
   * In every run a job can begin while a worker is free, reads the clock then, loads the row as the
   * last write left it, decides, and makes way for another when it has finished.
   */
  lemma JobsTakeTheirSteps(s: Schedule, clock: Instant, events: seq<Event>, workers: nat, j: nat)
    requires ValidTime(s.time)
    ensures var st, st' := Execute(s, clock, events, workers), Execute(s, clock, events + [Begin(j)], workers);
            j !in st.jobs && |st.running| < workers ==>
              st' == st.(jobs := st.jobs[j := Job(st.clock, Begun)], running := st.running + {j})
    ensures var st, st' := Execute(s, clock, events, workers), Execute(s, clock, events + [Load(j)], workers);
            j in st.jobs && st.jobs[j].phase == Begun ==>
              st' == st.(jobs := st.jobs[j := Job(st.jobs[j].now, Loaded(|st.firings|, LastOf(s, st.firings)))])
    ensures var st, st' := Execute(s, clock, events, workers), Execute(s, clock, events + [Decide(j)], workers);
            j in st.jobs && st.jobs[j].phase.Loaded? ==> j in st'.jobs && st'.jobs[j].phase.Decided?
    ensures var st, st' := Execute(s, clock, events, workers), Execute(s, clock, events + [Finish(j)], workers);
            j in st.jobs && st.jobs[j].phase.Decided? ==> st' == st.(running := st.running - {j})
  {
    InvHolds(s, clock, events, workers);
    Then(s, clock, events, Begin(j), workers);
    Then(s, clock, events, Load(j), workers);
    Then(s, clock, events, Decide(j), workers);
    Then(s, clock, events, Finish(j), workers);
  }

  // -------------------------------------------------------------- main results

  /** The longest that any job may take from reading the clock to its write: 23 hours, 59 minutes. */
  const PATIENCE: nat := 86340

  predicate Timely(firings: seq<Firing>) {
    forall q :: 0 <= q < |firings| ==> firings[q].at - firings[q].now <= PATIENCE
  }

  /** Matches of one schedule in different minutes are almost a day apart, or more. */
  lemma ADayApart(s: Schedule, a: Instant, b: Instant)
    requires ValidTime(s.time) && TimeMatches(s, a) && TimeMatches(s, b)
    requires MinuteOf(a) > MinuteOf(b)
    ensures a - b > PATIENCE
  {
    SameClock(a, b);
    var d := DayOf(a) - DayOf(b);
    assert d >= 1;
  }

  /** A timely firing written between two of one minute belongs to that minute too. */
  lemma BetweenIsSameMinute(s: Schedule, f: Firing, g: Firing, h: Firing)
    requires ValidTime(s.time)
    requires TimeMatches(s, f.now) && TimeMatches(s, g.now) && TimeMatches(s, h.now)
    requires f.now <= f.at <= g.at <= h.at && g.now <= g.at
    requires g.at - g.now <= PATIENCE && h.at - h.now <= PATIENCE
    requires MinuteOf(f.now) == MinuteOf(h.now)
    ensures MinuteOf(g.now) == MinuteOf(f.now)
  {
    if MinuteOf(g.now) > MinuteOf(h.now) {
      ADayApart(s, g.now, h.now);
    } else if MinuteOf(g.now) < MinuteOf(f.now) {
      ADayApart(s, f.now, g.now);
    }
  }

  lemma LoadedAfterSeesIt(s: Schedule, fs: seq<Firing>, q: nat)
    requires ValidTime(s.time) && q < |fs| && FiringOk(s, fs, q) && fs[q].loaded > 0
    ensures MinuteOf(fs[fs[q].loaded - 1].now) != MinuteOf(fs[q].now)
    ensures TimeMatches(s, fs[q].now)
  {
    assert fs[..fs[q].loaded][fs[q].loaded - 1] == fs[fs[q].loaded - 1];
    GuardSound(fs[fs[q].loaded - 1].now, fs[q].now);
  }

  lemma SecondLoadedEarly(s: Schedule, fs: seq<Firing>, workers: nat, p: nat, q: nat)
    requires ValidTime(s.time) && Coherent(s, fs, workers) && Timely(fs)
    requires p < q < |fs| && MinuteOf(fs[p].now) == MinuteOf(fs[q].now)
    ensures fs[q].loaded <= p && fs[q].job in fs[p].running
  {
    assert FiringOk(s, fs, q) && FiringOk(s, fs, p);
    forall r | p < r < q
      ensures MinuteOf(fs[r].now) == MinuteOf(fs[q].now)
    {
      assert FiringOk(s, fs, r);
      BetweenIsSameMinute(s, fs[p], fs[r], fs[q]);
    }
    if fs[q].loaded > 0 {
      LoadedAfterSeesIt(s, fs, q);
    }
  }

  /**
   * A second firing in one minute happens only if the second job had loaded its copy before the
   * first job's write, and so was running at it.
   */
  lemma SecondFiringLoadedEarly(s: Schedule, clock: Instant, events: seq<Event>, workers: nat, p: nat, q: nat)
    requires ValidTime(s.time)
    requires Timely(Execute(s, clock, events, workers).firings)
    requires p < q < |Execute(s, clock, events, workers).firings|
    requires var fs := Execute(s, clock, events, workers).firings;
             MinuteOf(fs[p].now) == MinuteOf(fs[q].now)
    ensures var fs := Execute(s, clock, events, workers).firings;
            fs[q].loaded <= p && fs[q].job in fs[p].running
  {
    InvHolds(s, clock, events, workers);
    SecondLoadedEarly(s, Execute(s, clock, events, workers).firings, workers, p, q);
  }

  /** The copy that was loaded comes after a write of this minute, or is of this minute to begin with. */
  predicate SawMinute(s: Schedule, firings: seq<Firing>, loaded: nat, minute: nat)
    requires loaded <= |firings|
  {
    || (exists p :: 0 <= p < loaded && MinuteOf(firings[p].now) == minute)
    || (loaded == 0 && s.lastFired.Some? && MinuteOf(s.lastFired.value) == minute)
  }

  /** The guard takes an old firing for one of this minute, though it is of another. */
  predicate Stale(last: Option<Instant>, now: Instant) {
    last.Some? && MinuteOf(last.value) != MinuteOf(now) && SameMinuteMark(last.value, now)
  }

  /** Firings in the order of their writes, each of them a timely match, up to `clock`. */
  predicate TimelyMatches(s: Schedule, fs: seq<Firing>, clock: Instant)
    requires ValidTime(s.time)
  {
    && (forall p, q :: 0 <= p < q < |fs| ==> fs[p].at <= fs[q].at)
    && (forall p :: 0 <= p < |fs| ==>
          TimeMatches(s, fs[p].now) && fs[p].now <= fs[p].at <= clock && fs[p].at - fs[p].now <= PATIENCE)
  }

  lemma FiringsAreTimelyMatches(s: Schedule, st: State, workers: nat)
    requires ValidTime(s.time) && FiringsInv(s, st, workers) && Timely(st.firings)
    ensures TimelyMatches(s, st.firings, st.clock)
  {
    forall p | 0 <= p < |st.firings|
      ensures TimeMatches(s, st.firings[p].now) && st.firings[p].now <= st.firings[p].at <= st.clock
    {
      assert FiringOk(s, st.firings, p) && Backed(st, st.firings[p]);
    }
  }

  /** Among timely jobs, one write of the minute before the load means that the last one is of it too. */
  lemma LastSeenIsOfMinute(s: Schedule, fs: seq<Firing>, n: nat, now: Instant, clock: Instant)
    requires ValidTime(s.time) && TimelyMatches(s, fs, clock) && n <= |fs|
    requires TimeMatches(s, now) && now <= clock <= now + PATIENCE
    ensures var last := LastOf(s, fs[..n]);
            SawMinute(s, fs, n, MinuteOf(now)) <==> last.Some? && MinuteOf(last.value) == MinuteOf(now)
  {
    if n > 0 {
      assert fs[..n][n - 1] == fs[n - 1];
      if p :| 0 <= p < n && MinuteOf(fs[p].now) == MinuteOf(now) {
        if p < n - 1 {
          BetweenIsSameMinute(s, fs[p], fs[n - 1], Firing(0, now, clock, 0, {}));
        }
      }
    }
  }

  /**
   * Exactly when a due job fires: among timely jobs, if and only if its copy was loaded before
   * every write of its own minute, and does not bear the mark of a firing 28 days ago or more.
   */
  lemma DecideFiresIff(s: Schedule, clock: Instant, events: seq<Event>, workers: nat, j: nat)
    requires ValidTime(s.time) && s.enabled
    requires j in Execute(s, clock, events, workers).jobs
    requires var st := Execute(s, clock, events, workers);
             && Timely(st.firings)
             && st.jobs[j].phase.Loaded? && TimeMatches(s, st.jobs[j].now)
             && st.clock - st.jobs[j].now <= PATIENCE
    ensures var st := Execute(s, clock, events, workers);
            var job := st.jobs[j];
            && job.phase.loaded <= |st.firings|
            && (Next(s, st, Decide(j), workers).firings != st.firings <==>
                  !SawMinute(s, st.firings, job.phase.loaded, MinuteOf(job.now)) && !Stale(job.phase.last, job.now))
            && (Stale(job.phase.last, job.now) ==> FourWeeksApart(job.phase.last.value, job.now))
  {
    InvHolds(s, clock, events, workers);
    DecideIff(s, Execute(s, clock, events, workers), workers, j);
  }

  lemma DecideIff(s: Schedule, st: State, workers: nat, j: nat)
    requires ValidTime(s.time) && s.enabled && JobsInv(s, st) && FiringsInv(s, st, workers) && Timely(st.firings)
    requires j in st.jobs && st.jobs[j].phase.Loaded? && TimeMatches(s, st.jobs[j].now)
    requires st.clock - st.jobs[j].now <= PATIENCE
    ensures var job := st.jobs[j];
            && job.phase.loaded <= |st.firings|
            && (Next(s, st, Decide(j), workers).firings != st.firings <==>
                  !SawMinute(s, st.firings, job.phase.loaded, MinuteOf(job.now)) && !Stale(job.phase.last, job.now))
            && (Stale(job.phase.last, job.now) ==> FourWeeksApart(job.phase.last.value, job.now))
  {
    var job := st.jobs[j];
    assert JobOk(s, st, j);
    FiringsAreTimelyMatches(s, st, workers);
    LastSeenIsOfMinute(s, st.firings, job.phase.loaded, job.now, st.clock);
    DecideFires(s, st, j, workers);
    if job.phase.last.Some? {
      GuardSound(job.phase.last.value, job.now);
    }
  }

  predicate FourWeeksApart(a: Instant, b: Instant) {
    MinuteOf(a) >= MinuteOf(b) + 28 * MINUTES_PER_DAY || MinuteOf(a) + 28 * MINUTES_PER_DAY <= MinuteOf(b)
  }

  lemma DecideFires(s: Schedule, st: State, j: nat, workers: nat)
    requires ValidTime(s.time) && j in st.jobs && st.jobs[j].phase.Loaded?
    ensures Next(s, st, Decide(j), workers).firings != st.firings <==>
            Fires(s.(lastFired := st.jobs[j].phase.last), st.jobs[j].now)
  {
  }

  /**
   * So a minute that has its firing gets another if and only if a due job of it decides on a copy
   * that was loaded before all the writes of the minute.
   */
  lemma FiresAgainIff(s: Schedule, clock: Instant, events: seq<Event>, workers: nat, j: nat)
    requires ValidTime(s.time) && s.enabled
    requires j in Execute(s, clock, events, workers).jobs
    requires var st := Execute(s, clock, events, workers);
             && Timely(st.firings)
             && st.jobs[j].phase.Loaded? && TimeMatches(s, st.jobs[j].now)
             && st.clock - st.jobs[j].now <= PATIENCE
             && !Stale(st.jobs[j].phase.last, st.jobs[j].now)
             && (s.lastFired.Some? ==> MinuteOf(s.lastFired.value) != MinuteOf(st.jobs[j].now))
    ensures var st := Execute(s, clock, events, workers);
            var job := st.jobs[j];
            var m := MinuteOf(job.now);
            && (FiringsIn(Next(s, st, Decide(j), workers).firings, m) == FiringsIn(st.firings, m) + 1 <==>
                  forall p :: 0 <= p < |st.firings| && MinuteOf(st.firings[p].now) == m ==> job.phase.loaded <= p)
  {
    DecideFiresIff(s, clock, events, workers, j);
    FiringCounts(s, Execute(s, clock, events, workers), j, workers);
  }

  lemma FiringCounts(s: Schedule, st: State, j: nat, workers: nat)
    requires ValidTime(s.time) && j in st.jobs && st.jobs[j].phase.Loaded?
    ensures var m, fs := MinuteOf(st.jobs[j].now), Next(s, st, Decide(j), workers).firings;
            FiringsIn(fs, m) == FiringsIn(st.firings, m) + if fs != st.firings then 1 else 0
  {
    var fs := Next(s, st, Decide(j), workers).firings;
    if fs != st.firings {
      assert fs[..|fs| - 1] == st.firings;
    }
  }

  function FiringsIn(firings: seq<Firing>, minute: nat): nat {
    if firings == [] then 0
    else
      FiringsIn(firings[..|firings| - 1], minute) +
      if MinuteOf(firings[|firings| - 1].now) == minute then 1 else 0
  }

  function JobsFiringIn(firings: seq<Firing>, minute: nat): set<nat> {
    set q | 0 <= q < |firings| && MinuteOf(firings[q].now) == minute :: firings[q].job
  }

  lemma JobsFiringStep(rest: seq<Firing>, f: Firing, minute: nat)
    ensures JobsFiringIn(rest + [f], minute) ==
            JobsFiringIn(rest, minute) + if MinuteOf(f.now) == minute then {f.job} else {}
  {
    var fs := rest + [f];
    assert fs[|rest|] == f && forall q :: 0 <= q < |rest| ==> fs[q] == rest[q];
    forall j | j in JobsFiringIn(rest, minute)
      ensures j in JobsFiringIn(fs, minute)
    {
      var q :| 0 <= q < |rest| && MinuteOf(rest[q].now) == minute && rest[q].job == j;
      assert fs[q].job == j;
    }
  }

  lemma {:induction false} FiringsAreJobs(firings: seq<Firing>, minute: nat)
    requires forall p, q :: 0 <= p < q < |firings| ==> firings[p].job != firings[q].job
    ensures FiringsIn(firings, minute) == |JobsFiringIn(firings, minute)|
  {
    if firings != [] {
      var rest, f := firings[..|firings| - 1], firings[|firings| - 1];
      FiringsAreJobs(rest, minute);
      assert firings == rest + [f];
      JobsFiringStep(rest, f, minute);
      assert f.job !in JobsFiringIn(rest, minute);
    }
  }

  lemma SubsetSize<T>(a: set<T>, b: set<T>)
    requires a <= b
    ensures |a| <= |b|
  {
    assert b == a + (b - a);
  }

  function JobsReadingIn(st: State, minute: nat): set<nat> {
    set j | j in st.jobs && MinuteOf(st.jobs[j].now) == minute
  }

  /** A schedule fires in one minute at most as often as jobs read the clock in that minute. */
  lemma FiringsBoundedByJobs(s: Schedule, clock: Instant, events: seq<Event>, workers: nat, minute: nat)
    requires ValidTime(s.time)
    ensures var st := Execute(s, clock, events, workers);
            FiringsIn(st.firings, minute) <= |JobsReadingIn(st, minute)|
  {
    InvHolds(s, clock, events, workers);
    var st := Execute(s, clock, events, workers);
    FiringsAreJobs(st.firings, minute);
    SubsetSize(JobsFiringIn(st.firings, minute), JobsReadingIn(st, minute));
  }

  // ------------------------------------------------- exactly how many firings

  /** What a job has done about its copy: it fired, as the next firing then, exactly if the copy let it. */
  predicate DecidedOk(s: Schedule, firings: seq<Firing>, clock: Instant, j: nat, job: Job)
    requires ValidTime(s.time) && job.phase.Decided?
  {
    var p := job.phase;
    && p.loaded <= p.before <= |firings|
    && p.last == LastOf(s, firings[..p.loaded])
    && job.now <= p.at <= clock
    && (forall q :: 0 <= q < p.before ==> firings[q].at <= p.at)
    && (Fires(s.(lastFired := p.last), job.now) <==> p.before < |firings| && firings[p.before].job == j)
  }

  predicate FiredBy(st: State, q: nat)
    requires q < |st.firings|
  {
    var j := st.firings[q].job;
    j in st.jobs && st.jobs[j].phase.Decided? && st.jobs[j].phase.before == q
  }

  ghost predicate DecidedInv(s: Schedule, st: State)
    requires ValidTime(s.time)
  {
    && (forall j :: j in st.jobs && st.jobs[j].phase.Decided? ==> DecidedOk(s, st.firings, st.clock, j, st.jobs[j]))
    && (forall q :: 0 <= q < |st.firings| ==> FiredBy(st, q))
  }

  lemma DecidedOkLater(s: Schedule, firings: seq<Firing>, more: seq<Firing>, clock: Instant, later: Instant, j: nat, job: Job)
    requires ValidTime(s.time) && job.phase.Decided? && DecidedOk(s, firings, clock, j, job) && clock <= later
    requires |more| <= 1 && (more != [] ==> more[0].job != j)
    ensures DecidedOk(s, firings + more, later, j, job)
  {
    assert (firings + more)[..job.phase.loaded] == firings[..job.phase.loaded];
  }

  lemma DecideIsDecidedOk(s: Schedule, st: State, j: nat, workers: nat)
    requires ValidTime(s.time) && JobsInv(s, st) && FiringsInv(s, st, workers)
    requires j in st.jobs && st.jobs[j].phase.Loaded?
    ensures var st' := Next(s, st, Decide(j), workers);
            DecidedOk(s, st'.firings, st'.clock, j, st'.jobs[j])
  {
    assert JobOk(s, st, j);
    var st' := Next(s, st, Decide(j), workers);
    var n := st.jobs[j].phase.loaded;
    assert st'.firings[..n] == st.firings[..n];
    assert forall q :: 0 <= q < |st.firings| ==> Backed(st, st.firings[q]) && st'.firings[q] == st.firings[q];
  }

  /** A job that has decided stays as it is, and no other firing is ever its own. */
  lemma StepLeavesDecided(s: Schedule, st: State, e: Event, workers: nat, j: nat)
    requires ValidTime(s.time) && j in st.jobs && st.jobs[j].phase.Decided?
    ensures var st' := Next(s, st, e, workers);
            && j in st'.jobs && st'.jobs[j] == st.jobs[j] && st.clock <= st'.clock
            && (e.Decide? && Enabled(st, e, workers) ==> e.job != j)
  {
  }

  lemma StepKeepsOneDecided(s: Schedule, st: State, e: Event, workers: nat, j: nat)
    requires ValidTime(s.time) && JobsInv(s, st) && FiringsInv(s, st, workers)
    requires j in Next(s, st, e, workers).jobs && Next(s, st, e, workers).jobs[j].phase.Decided?
    requires j in st.jobs && st.jobs[j].phase.Decided? ==> DecidedOk(s, st.firings, st.clock, j, st.jobs[j])
    ensures var st' := Next(s, st, e, workers);
            DecidedOk(s, st'.firings, st'.clock, j, st'.jobs[j])
  {
    var st' := Next(s, st, e, workers);
    if j in st.jobs && st.jobs[j].phase.Decided? {
      StepLeavesDecided(s, st, e, workers, j);
      StepAddsFiring(s, st, e, workers);
      var more := st'.firings[|st.firings|..];
      assert st'.firings == st.firings + more;
      DecidedOkLater(s, st.firings, more, st.clock, st'.clock, j, st.jobs[j]);
    } else {
      assert e == Decide(j);
      DecideIsDecidedOk(s, st, j, workers);
    }
  }

  lemma StepKeepsFiredBy(s: Schedule, st: State, e: Event, workers: nat, q: nat)
    requires ValidTime(s.time) && JobsInv(s, st)
    requires q < |Next(s, st, e, workers).firings|
    requires q < |st.firings| ==> FiredBy(st, q)
    ensures FiredBy(Next(s, st, e, workers), q)
  {
    StepAddsFiring(s, st, e, workers);
    if q < |st.firings| {
      StepLeavesDecided(s, st, e, workers, st.firings[q].job);
    }
  }

  lemma StepKeepsDecided(s: Schedule, st: State, e: Event, workers: nat)
    requires ValidTime(s.time) && JobsInv(s, st) && FiringsInv(s, st, workers) && DecidedInv(s, st)
    ensures DecidedInv(s, Next(s, st, e, workers))
  {
    var st' := Next(s, st, e, workers);
    forall j | j in st'.jobs && st'.jobs[j].phase.Decided?
      ensures DecidedOk(s, st'.firings, st'.clock, j, st'.jobs[j])
    {
      StepKeepsOneDecided(s, st, e, workers, j);
    }
    forall q | 0 <= q < |st'.firings|
      ensures FiredBy(st', q)
    {
      StepKeepsFiredBy(s, st, e, workers, q);
    }
  }

  lemma {:induction false} DecidedHolds(s: Schedule, clock: Instant, events: seq<Event>, workers: nat)
    requires ValidTime(s.time)
    ensures DecidedInv(s, Execute(s, clock, events, workers))
  {
    if events != [] {
      var rest, e := events[..|events| - 1], events[|events| - 1];
      DecidedHolds(s, clock, rest, workers);
      InvHolds(s, clock, rest, workers);
      StepKeepsDecided(s, Execute(s, clock, rest, workers), e, workers);
    }
  }

  /** No firing of the minute had been written when the copy was loaded. */
  predicate BeforeWrites(firings: seq<Firing>, loaded: nat, minute: nat) {
    forall p :: 0 <= p < |firings| && MinuteOf(firings[p].now) == minute ==> loaded <= p
  }

  /** A job of the minute that is due and has decided. */
  predicate DueIn(s: Schedule, st: State, j: nat, minute: nat)
    requires ValidTime(s.time)
  {
    && j in st.jobs && st.jobs[j].phase.Decided?
    && s.enabled && MinuteOf(st.jobs[j].now) == minute && TimeMatches(s, st.jobs[j].now)
  }

  /** The due jobs of the minute that decided on a copy from before the minute's first write. */
  function EarlyJobs(s: Schedule, st: State, minute: nat): set<nat>
    requires ValidTime(s.time)
  {
    set j | j in st.jobs && DueIn(s, st, j, minute) && BeforeWrites(st.firings, st.jobs[j].phase.loaded, minute)
  }

  /** The due jobs of the minute took no longer than the bound, and no old firing marks the minute. */
  ghost predicate Orderly(s: Schedule, st: State, minute: nat)
    requires ValidTime(s.time)
  {
    && Timely(st.firings)
    && (s.lastFired.Some? ==> MinuteOf(s.lastFired.value) != minute)
    && forall j :: DueIn(s, st, j, minute) ==>
         var p := st.jobs[j].phase;
         p.at - st.jobs[j].now <= PATIENCE && !Stale(p.last, st.jobs[j].now)
  }

  lemma CopyLetsFireIff(s: Schedule, fs: seq<Firing>, job: Job)
    requires ValidTime(s.time) && s.enabled && job.phase.Decided? && job.phase.loaded <= |fs|
    requires TimelyMatches(s, fs, job.phase.at) && job.phase.last == LastOf(s, fs[..job.phase.loaded])
    requires TimeMatches(s, job.now) && job.now <= job.phase.at <= job.now + PATIENCE
    requires !Stale(job.phase.last, job.now)
    ensures Fires(s.(lastFired := job.phase.last), job.now) <==>
            !SawMinute(s, fs, job.phase.loaded, MinuteOf(job.now))
  {
    LastSeenIsOfMinute(s, fs, job.phase.loaded, job.now, job.phase.at);
    if job.phase.last.Some? {
      GuardSound(job.phase.last.value, job.now);
    }
  }

  lemma FirstFiringsAreTimely(s: Schedule, st: State, workers: nat, n: nat, at: Instant)
    requires ValidTime(s.time) && FiringsInv(s, st, workers) && Timely(st.firings)
    requires n <= |st.firings| && forall q :: 0 <= q < n ==> st.firings[q].at <= at
    ensures TimelyMatches(s, st.firings[..n], at)
  {
    FiringsAreTimelyMatches(s, st, workers);
  }

  lemma SawMinuteIff(s: Schedule, firings: seq<Firing>, before: nat, loaded: nat, minute: nat)
    requires loaded <= before <= |firings|
    requires s.lastFired.Some? ==> MinuteOf(s.lastFired.value) != minute
    ensures SawMinute(s, firings[..before], loaded, minute) <==> !BeforeWrites(firings, loaded, minute)
  {
    if p :| 0 <= p < |firings| && MinuteOf(firings[p].now) == minute && p < loaded {
      assert MinuteOf(firings[..before][p].now) == minute;
    }
  }

  lemma FiredIffEarly(s: Schedule, st: State, workers: nat, j: nat, minute: nat)
    requires ValidTime(s.time) && FiringsInv(s, st, workers) && DecidedInv(s, st)
    requires Orderly(s, st, minute) && DueIn(s, st, j, minute)
    ensures Fires(s.(lastFired := st.jobs[j].phase.last), st.jobs[j].now) <==>
            BeforeWrites(st.firings, st.jobs[j].phase.loaded, minute)
  {
    var job := st.jobs[j];
    var fs := st.firings[..job.phase.before];
    assert DecidedOk(s, st.firings, st.clock, j, job);
    assert fs[..job.phase.loaded] == st.firings[..job.phase.loaded];
    FirstFiringsAreTimely(s, st, workers, job.phase.before, job.phase.at);
    CopyLetsFireIff(s, fs, job);
    SawMinuteIff(s, st.firings, job.phase.before, job.phase.loaded, minute);
  }

  lemma FiringIsOfDueJob(s: Schedule, st: State, workers: nat, q: nat)
    requires ValidTime(s.time) && FiringsInv(s, st, workers) && DecidedInv(s, st) && q < |st.firings|
    ensures var j := st.firings[q].job;
            && DueIn(s, st, j, MinuteOf(st.firings[q].now))
            && Fires(s.(lastFired := st.jobs[j].phase.last), st.jobs[j].now)
  {
    assert FiredBy(st, q) && Backed(st, st.firings[q]) && FiringOk(s, st.firings, q);
    assert DecidedOk(s, st.firings, st.clock, st.firings[q].job, st.jobs[st.firings[q].job]);
  }

  lemma DueJobHasFired(s: Schedule, st: State, workers: nat, j: nat, minute: nat)
    requires ValidTime(s.time) && FiringsInv(s, st, workers) && DecidedInv(s, st) && DueIn(s, st, j, minute)
    requires Fires(s.(lastFired := st.jobs[j].phase.last), st.jobs[j].now)
    ensures j in JobsFiringIn(st.firings, minute)
  {
    assert DecidedOk(s, st.firings, st.clock, j, st.jobs[j]);
    var q := st.jobs[j].phase.before;
    assert Backed(st, st.firings[q]);
  }

  lemma FiringJobsAreEarly(s: Schedule, st: State, workers: nat, minute: nat)
    requires ValidTime(s.time) && FiringsInv(s, st, workers) && DecidedInv(s, st)
    requires Orderly(s, st, minute)
    ensures JobsFiringIn(st.firings, minute) == EarlyJobs(s, st, minute)
  {
    forall j
      ensures j in JobsFiringIn(st.firings, minute) <==> j in EarlyJobs(s, st, minute)
    {
      if j in JobsFiringIn(st.firings, minute) {
        var q :| 0 <= q < |st.firings| && MinuteOf(st.firings[q].now) == minute && st.firings[q].job == j;
        FiringIsOfDueJob(s, st, workers, q);
        FiredIffEarly(s, st, workers, j, minute);
      } else if j in EarlyJobs(s, st, minute) {
        FiredIffEarly(s, st, workers, j, minute);
        DueJobHasFired(s, st, workers, j, minute);
      }
    }
  }

  /**
   * Over a whole run: a minute has exactly as many firings as there are due jobs of it that decided
   * on a copy loaded before the first of them was written.
   */
  lemma FiringsAreEarlyJobs(s: Schedule, clock: Instant, events: seq<Event>, workers: nat, minute: nat)
    requires ValidTime(s.time)
    requires Orderly(s, Execute(s, clock, events, workers), minute)
    ensures var st := Execute(s, clock, events, workers);
            FiringsIn(st.firings, minute) == |EarlyJobs(s, st, minute)|
  {
    InvHolds(s, clock, events, workers);
    DecidedHolds(s, clock, events, workers);
    FiringJobsAreEarly(s, Execute(s, clock, events, workers), workers, minute);
    FiringsAreJobs(Execute(s, clock, events, workers).firings, minute);
  }

  lemma JobsOfAMinuteRanTogether(s: Schedule, fs: seq<Firing>, workers: nat, minute: nat, p: nat)
    requires ValidTime(s.time) && Coherent(s, fs, workers) && Timely(fs)
    requires p < |fs| && MinuteOf(fs[p].now) == minute
    requires forall q :: 0 <= q < p ==> MinuteOf(fs[q].now) != minute
    ensures JobsFiringIn(fs, minute) <= fs[p].running
  {
    forall q | 0 <= q < |fs| && MinuteOf(fs[q].now) == minute
      ensures fs[q].job in fs[p].running
    {
      assert FiringOk(s, fs, q);
      if p < q {
        SecondLoadedEarly(s, fs, workers, p, q);
      }
    }
  }

  /**
   * A schedule fires in one minute at most as often as there are workers: all jobs that fire in it
   * were running together. With one worker, or jobs that never overlap, it fires at most once.
   */
  lemma FiringsBoundedByWorkers(s: Schedule, clock: Instant, events: seq<Event>, workers: nat, minute: nat)
    requires ValidTime(s.time)
    requires Timely(Execute(s, clock, events, workers).firings)
    ensures FiringsIn(Execute(s, clock, events, workers).firings, minute) <= workers
  {
    InvHolds(s, clock, events, workers);
    var fs := Execute(s, clock, events, workers).firings;
    FiringsAreJobs(fs, minute);
    if JobsFiringIn(fs, minute) != {} {
      var p := FirstIn(fs, minute);
      JobsOfAMinuteRanTogether(s, fs, workers, minute, p);
      SubsetSize(JobsFiringIn(fs, minute), fs[p].running);
    }
  }

  lemma {:induction false} FirstIn(fs: seq<Firing>, minute: nat) returns (p: nat)
    requires JobsFiringIn(fs, minute) != {}
    ensures p < |fs| && MinuteOf(fs[p].now) == minute
    ensures forall q :: 0 <= q < p ==> MinuteOf(fs[q].now) != minute
  {
    p := 0;
    while MinuteOf(fs[p].now) != minute
      invariant p < |fs| && forall q :: 0 <= q < p ==> MinuteOf(fs[q].now) != minute
      decreases |fs| - p
    {
      var j :| j in JobsFiringIn(fs, minute);
      var q :| 0 <= q < |fs| && MinuteOf(fs[q].now) == minute && fs[q].job == j;
      p := p + 1;
    }
  }

  // ------------------------------------------------------- what can go wrong

  lemma Then(s: Schedule, clock: Instant, events: seq<Event>, e: Event, workers: nat)
    requires ValidTime(s.time)
    ensures Execute(s, clock, events + [e], workers) == Next(s, Execute(s, clock, events, workers), e, workers)
  {
    assert (events + [e])[..|events|] == events;
  }

  /** Two jobs that both load before either writes. */
  const OverlappingRun := [Begin(0), Begin(1), Load(0), Load(1), Decide(0), Decide(1)]

  lemma Unfold6(s: Schedule, clock: Instant, r: seq<Event>, n: nat)
    requires ValidTime(s.time) && |r| == 6
    ensures var st := Next(s, Next(s, Next(s, Initial(s, clock), r[0], n), r[1], n), r[2], n);
            Execute(s, clock, r, n) == Next(s, Next(s, Next(s, st, r[3], n), r[4], n), r[5], n)
  {
    assert r[..1] == [] + [r[0]] && r[..2] == r[..1] + [r[1]] && r[..3] == r[..2] + [r[2]];
    assert r[..4] == r[..3] + [r[3]] && r[..5] == r[..4] + [r[4]] && r == r[..5] + [r[5]];
    Then(s, clock, [], r[0], n); Then(s, clock, r[..1], r[1], n); Then(s, clock, r[..2], r[2], n);
    Then(s, clock, r[..3], r[3], n); Then(s, clock, r[..4], r[4], n); Then(s, clock, r[..5], r[5], n);
  }

  lemma BothLoad(s: Schedule, clock: Instant)
    requires ValidTime(s.time)
    ensures var st := Next(s, Next(s, Next(s, Initial(s, clock), Begin(0), 2), Begin(1), 2), Load(0), 2);
            var job := Job(clock, Loaded(0, s.lastFired));
            Next(s, st, Load(1), 2) == State(clock, s.lastFired, map[0 := job, 1 := job], {0, 1}, [])
  {
    var st1 := Next(s, Initial(s, clock), Begin(0), 2);
    assert st1 == State(clock, s.lastFired, map[0 := Job(clock, Begun)], {0}, []);
    var st2 := Next(s, st1, Begin(1), 2);
    assert st2 == State(clock, s.lastFired, map[0 := Job(clock, Begun), 1 := Job(clock, Begun)], {0, 1}, []);
  }

  /** Any schedule that is due is fired twice in its minute by that run. */
  lemma OverlapFiresTwice(s: Schedule, clock: Instant)
    requires ValidTime(s.time) && Fires(s, clock)
    ensures FiringsIn(Execute(s, clock, OverlappingRun, 2).firings, MinuteOf(clock)) == 2
  {
    Unfold6(s, clock, OverlappingRun, 2);
    BothLoad(s, clock);
    var job := Job(clock, Loaded(0, s.lastFired));
    var st4 := State(clock, s.lastFired, map[0 := job, 1 := job], {0, 1}, []);
    assert s.(lastFired := job.phase.last) == s;
    var f, g := Firing(0, clock, clock, 0, {0, 1}), Firing(1, clock, clock, 0, {0, 1});
    var st5 := Next(s, st4, Decide(0), 2);
    assert st5.firings == [] + [f] && st5.jobs[1] == job && st5.running == {0, 1} && st5.clock == clock;
    var st6 := Next(s, st5, Decide(1), 2);
    assert st6.firings == [f] + [g];
    TwoFirings(f, g);
  }

  lemma TwoFirings(f: Firing, g: Firing)
    requires MinuteOf(f.now) == MinuteOf(g.now)
    ensures FiringsIn([f] + [g], MinuteOf(f.now)) == 2
  {
    var m := MinuteOf(f.now);
    assert [f][..0] == [] && FiringsIn([], m) == 0;
    assert FiringsIn([f], m) == 1;
    assert ([f] + [g])[..1] == [f];
  }

  function Alone(j: nat): seq<Event> {
    [Begin(j), Load(j), Decide(j)]
  }

  /** Job 2 loads and is held up; jobs 0 and 1 run one after another on the next day. */
  function HeldUpRun(delay: nat): seq<Event> {
    [Begin(2), Load(2), Advance(delay)] + Alone(0) + [Finish(0), Decide(2), Finish(2)] + Alone(1)
  }

  /**
   * The bound cannot be any longer. A job that is held up until the next day's minute of its
   * schedule writes its old time over the row between two others, which both fire in that minute
   * without overlapping; and the delay need not be more than one second past the bound.
   */
  lemma HeldUpWriteFiresTwice(s: Schedule, t: Instant, u: Instant)
    requires ValidTime(s.time) && s.enabled && s.days == [] && s.lastFired == None && TimeMatches(s, t)
    requires MinuteOf(u) == MinuteOf(t) + MINUTES_PER_DAY
    ensures u > t
    ensures var fs := Execute(s, t, HeldUpRun(u - t), 2).firings;
            && |fs| == 3
            && fs[0].now == fs[0].at == u && fs[1].now == t && fs[1].at == u && fs[2].now == fs[2].at == u
            && fs[0].job !in fs[2].running && fs[2].loaded == 2
    ensures t % 60 == 59 && u % 60 == 0 ==> u - t == PATIENCE + 1
  {
    DueAgainNextDay(s, t, u);
    HeldUpRuns(s, t, u);
  }

  lemma HeldUpStarts(s: Schedule, t: Instant, u: Instant)
    requires ValidTime(s.time) && s.lastFired == None && t <= u
    ensures Execute(s, t, [Begin(2), Load(2), Advance(u - t)], 2) ==
            State(u, None, map[2 := Job(t, Loaded(0, None))], {2}, [])
  {
    var r := [Begin(2), Load(2), Advance(u - t)];
    assert r[..1] == [] + [r[0]] && r[..2] == r[..1] + [r[1]] && r == r[..2] + [r[2]];
    Then(s, t, [], r[0], 2); Then(s, t, r[..1], r[1], 2); Then(s, t, r[..2], r[2], 2);
    var st1 := Next(s, Initial(s, t), r[0], 2);
    assert st1 == State(t, None, map[2 := Job(t, Begun)], {2}, []);
    assert Next(s, st1, r[1], 2) == State(t, None, map[2 := Job(t, Loaded(0, None))], {2}, []);
  }

  /** Three steps from a state. */
  function Onward(s: Schedule, st: State, r: seq<Event>): State
    requires ValidTime(s.time) && |r| == 3
  {
    Next(s, Next(s, Next(s, st, r[0], 2), r[1], 2), r[2], 2)
  }

  lemma ExecuteOn(s: Schedule, clock: Instant, events: seq<Event>, r: seq<Event>)
    requires ValidTime(s.time) && |r| == 3
    ensures Execute(s, clock, events + r, 2) == Onward(s, Execute(s, clock, events, 2), r)
  {
    assert events + r == events + [r[0]] + [r[1]] + [r[2]];
    Then(s, clock, events, r[0], 2);
    Then(s, clock, events + [r[0]], r[1], 2);
    Then(s, clock, events + [r[0]] + [r[1]], r[2], 2);
  }

  lemma DueAgainNextDay(s: Schedule, t: Instant, u: Instant)
    requires ValidTime(s.time) && s.enabled && s.days == [] && s.lastFired == None && TimeMatches(s, t)
    requires MinuteOf(u) == MinuteOf(t) + MINUTES_PER_DAY
    ensures t < u && Fires(s, t) && Fires(s, u) && Fires(s.(lastFired := Some(t)), u)
  {
    assert DayOf(u) == DayOf(t) + 1 && HourOf(u) == HourOf(t) && MinOf(u) == MinOf(t);
    GuardSound(t, u);
  }

  lemma HeldUpRuns(s: Schedule, t: Instant, u: Instant)
    requires ValidTime(s.time) && s.lastFired == None && t < u
    requires Fires(s, t) && Fires(s, u) && Fires(s.(lastFired := Some(t)), u)
    ensures Execute(s, t, HeldUpRun(u - t), 2).firings ==
            [Firing(0, u, u, 0, {0, 2}), Firing(2, t, u, 0, {2}), Firing(1, u, u, 2, {1})]
  {
    var r1 := [Begin(2), Load(2), Advance(u - t)];
    var r2 := [Finish(0), Decide(2), Finish(2)];
    HeldUpStarts(s, t, u);
    ExecuteOn(s, t, r1, Alone(0));
    ExecuteOn(s, t, r1 + Alone(0), r2);
    ExecuteOn(s, t, r1 + Alone(0) + r2, Alone(1));
    HeldUpEnds(s, State(u, None, map[2 := Job(t, Loaded(0, None))], {2}, []), t);
  }

  lemma HeldUpEnds(s: Schedule, st: State, t: Instant)
    requires ValidTime(s.time) && s.lastFired == None && Fires(s, t)
    requires Fires(s, st.clock) && Fires(s.(lastFired := Some(t)), st.clock)
    requires st == State(st.clock, None, map[2 := Job(t, Loaded(0, None))], {2}, [])
    ensures Onward(s, Onward(s, Onward(s, st, Alone(0)), [Finish(0), Decide(2), Finish(2)]), Alone(1)).firings ==
            [Firing(0, st.clock, st.clock, 0, {0, 2}), Firing(2, t, st.clock, 0, {2}),
             Firing(1, st.clock, st.clock, 2, {1})]
  {
    assert s.(lastFired := None) == s;
    RunsAlone(s, st, 0);
    HeldUpWritesBetween(s, Onward(s, st, Alone(0)), t);
  }

  lemma HeldUpWritesBetween(s: Schedule, st: State, t: Instant)
    requires ValidTime(s.time) && s.lastFired == None && Fires(s, t) && Fires(s.(lastFired := Some(t)), st.clock)
    requires st.running == {0, 2} && |st.firings| == 1
    requires st.jobs.Keys == {0, 2} && st.jobs[0].phase.Decided? && st.jobs[2] == Job(t, Loaded(0, None))
    ensures Onward(s, Onward(s, st, [Finish(0), Decide(2), Finish(2)]), Alone(1)).firings ==
            st.firings + [Firing(2, t, st.clock, 0, {2})] + [Firing(1, st.clock, st.clock, 2, {1})]
  {
    HeldUpJobWrites(s, st, t);
    RunsAlone(s, Onward(s, st, [Finish(0), Decide(2), Finish(2)]), 1);
  }

  lemma HeldUpJobWrites(s: Schedule, st: State, t: Instant)
    requires ValidTime(s.time) && s.lastFired == None && Fires(s, t)
    requires st.running == {0, 2} && |st.firings| == 1
    requires st.jobs.Keys == {0, 2} && st.jobs[0].phase.Decided? && st.jobs[2] == Job(t, Loaded(0, None))
    ensures var st' := Onward(s, st, [Finish(0), Decide(2), Finish(2)]);
            && st'.running == {} && st'.last == Some(t) && st'.clock == st.clock && st'.jobs.Keys == {0, 2}
            && st'.firings == st.firings + [Firing(2, t, st.clock, 0, {2})]
  {
    assert s.(lastFired := None) == s;
    var st1 := Next(s, st, Finish(0), 2);
    assert st1 == st.(running := {2});
    var st2 := Next(s, st1, Decide(2), 2);
    assert st2.jobs.Keys == {0, 2} && st2.jobs[2].phase.Decided?;
  }

  /** A job that begins, loads and decides with nothing in between fires if the row lets it. */
  lemma RunsAlone(s: Schedule, st: State, j: nat)
    requires ValidTime(s.time) && j !in st.jobs && j !in st.running && |st.running| < 2
    requires Fires(s.(lastFired := st.last), st.clock)
    ensures var st' := Onward(s, st, Alone(j));
            && st'.clock == st.clock && st'.last == Some(st.clock)
            && st'.firings == st.firings + [Firing(j, st.clock, st.clock, |st.firings|, st.running + {j})]
            && st'.jobs == st.jobs[j := Job(st.clock, Decided(|st.firings|, st.last, |st.firings|, st.clock))]
            && st'.running == st.running + {j}
  {
    var st1 := Next(s, st, Begin(j), 2);
    assert st1.jobs == st.jobs[j := Job(st.clock, Begun)];
    var st2 := Next(s, st1, Load(j), 2);
    assert st2.jobs == st.jobs[j := Job(st.clock, Loaded(|st.firings|, st.last))];
  }
}
