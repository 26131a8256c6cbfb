/**
 * Kills of one session at the grain of their single steps: the check of `@closed`, its setting,
 * the TERM, the closing of the master and the removal under a lock that is not re-entrant.
 *
 * A kill by id takes the lock first and keeps it; the reaper calls `kill` without it.
 */
module KillRace {

  /** `check` and `mark` are the places in the log where this thread did those steps. */
  datatype Pc =
    | Locking
    | Deleting
    | Checking
    | Marking(check: nat)
    | Signalling(check: nat, mark: nat)
    | Closing
    | Removing
    | Done
    | Raised

  datatype Thread = Thread(byId: bool, found: bool, pc: Pc)

  datatype Act =
    | Check(thread: nat, passed: bool)
    | Mark(thread: nat, check: nat)
    | Term(thread: nat, check: nat, mark: nat)
    | ReaderExit

  datatype State = State(
    closed: bool,
    registered: bool,
    masterOpen: bool,
    owner: int,
    threads: map<nat, Thread>,
    log: seq<Act>)

  const Init := State(false, true, true, -1, map[], [])

  datatype Event = Spawn(thread: nat, byId: bool) | Step(thread: nat) | ReaderStops

  predicate Enabled(s: State, e: Event) {
    match e
    case Spawn(t, _) => t !in s.threads
    case ReaderStops => true
    case Step(t) =>
      t in s.threads &&
      match s.threads[t].pc
      case Locking => s.owner == -1
      case Removing => s.owner == -1 || s.owner == t
      case Done => false
      case Raised => false
      case _ => true
  }

  function Advance(s: State, t: nat, pc: Pc): State
    requires t in s.threads
  {
    s.(threads := s.threads[t := s.threads[t].(pc := pc)])
  }

  function StepOf(s: State, t: nat): State
    requires t in s.threads
  {
    match s.threads[t].pc
    case Locking => Advance(s, t, Deleting).(owner := t)
    case Deleting =>
      if s.registered then
        s.(registered := false, threads := s.threads[t := s.threads[t].(found := true, pc := Checking)])
      else Advance(s, t, Done).(owner := -1)
    case Checking =>
      Advance(s, t, if s.closed then Closing else Marking(|s.log|)).(log := s.log + [Check(t, !s.closed)])
    case Marking(c) => Advance(s, t, Signalling(c, |s.log|)).(closed := true, log := s.log + [Mark(t, c)])
    case Signalling(c, m) => Advance(s, t, Closing).(log := s.log + [Term(t, c, m)])
    case Closing => Advance(s, t, Removing).(masterOpen := false)
    case Removing =>
      if s.owner == t then Advance(s, t, Raised).(owner := -1)
      else Advance(s, t, Done).(registered := false)
    case _ => s
  }

  function Next(s: State, e: Event): State {
    if !Enabled(s, e) then s else
    match e
    case Spawn(t, byId) =>
      s.(threads := s.threads[t := Thread(byId, false, if byId then Locking else Checking)])
    case Step(t) => StepOf(s, t)
    case ReaderStops => s.(closed := true, log := s.log + [ReaderExit])
  }

  function Execute(events: seq<Event>): State {
    if events == [] then Init
    else Next(Execute(events[..|events| - 1]), events[|events| - 1])
  }

  // ---------------------------------------------------------------- the lock

  /** A kill by id holds the lock from its locking step to its end, and ends well only empty-handed. */
  predicate ThreadOk(s: State, t: nat)
    requires t in s.threads
  {
    var th := s.threads[t];
    && (th.byId && !th.pc.Locking? && !th.pc.Done? && !th.pc.Raised? <==> s.owner == t)
    && (th.pc.Locking? || th.pc.Deleting? ==> th.byId && !th.found)
    && (th.pc.Done? || !th.byId ==> !th.found)
    && (th.pc.Raised? ==> th.found)
    && (s.owner == t && !th.pc.Deleting? ==> th.found)
  }

  ghost predicate LockInv(s: State) {
    && (s.owner != -1 ==> s.owner >= 0 && s.owner in s.threads)
    && (forall t :: t in s.threads ==> ThreadOk(s, t))
    && (forall t :: t in s.threads && s.threads[t].found ==> !s.registered)
    && (forall t, u :: t in s.threads && u in s.threads && s.threads[t].found && s.threads[u].found ==> t == u)
  }

  /** What one thread's step may do to the state, as far as the lock is concerned. */
  ghost predicate LockMove(s: State, s': State, t: nat) {
    && t in s'.threads
    && s'.threads == s.threads[t := s'.threads[t]]
    && ThreadOk(s', t)
    && (s'.registered ==> s.registered)
    && (s'.threads[t].found ==> !s'.registered)
    && (s'.threads[t].found ==> s.registered || (t in s.threads && s.threads[t].found))
    && (s'.owner == s.owner || (s'.owner == -1 && s.owner == t) || (s'.owner == t && s.owner == -1))
  }

  lemma LockMoveKeepsInv(s: State, s': State, t: nat)
    requires LockInv(s) && LockMove(s, s', t)
    ensures LockInv(s')
  {
    forall u | u in s'.threads
      ensures ThreadOk(s', u)
    {
      if u != t {
        assert ThreadOk(s, u);
      }
    }
  }

  lemma StepIsLockMove(s: State, t: nat)
    requires LockInv(s) && Enabled(s, Step(t))
    ensures LockMove(s, StepOf(s, t), t)
  {
    assert ThreadOk(s, t);
  }

  lemma SpawnIsLockMove(s: State, t: nat, byId: bool)
    requires LockInv(s) && Enabled(s, Spawn(t, byId))
    ensures LockMove(s, Next(s, Spawn(t, byId)), t)
  {
  }

  lemma StepKeepsLock(s: State, e: Event)
    requires LockInv(s)
    ensures LockInv(Next(s, e))
  {
    if Enabled(s, e) {
      match e
      case Spawn(t, byId) =>
        SpawnIsLockMove(s, t, byId);
        LockMoveKeepsInv(s, Next(s, e), t);
      case Step(t) =>
        StepIsLockMove(s, t);
        LockMoveKeepsInv(s, StepOf(s, t), t);
      case ReaderStops =>
        assert forall t :: t in s.threads && ThreadOk(s, t) ==> ThreadOk(Next(s, e), t);
    }
  }

  lemma {:induction false} LockHolds(events: seq<Event>)
    ensures LockInv(Execute(events))
  {
    if events != [] {
      LockHolds(events[..|events| - 1]);
      StepKeepsLock(Execute(events[..|events| - 1]), events[|events| - 1]);
    }
  }

  /**
   * A kill by id that has ended raised exactly if it found the session registered; a reaper's
   * kill never raises; of all the kills by id at most one finds the session.
   */
  lemma KillByIdRaisesIffFound(events: seq<Event>, t: nat, u: nat)
    requires t in Execute(events).threads && u in Execute(events).threads
    ensures var th := Execute(events).threads[t];
            && (th.pc.Done? || th.pc.Raised? ==> (th.pc.Raised? <==> th.byId && th.found))
            && (th.found && Execute(events).threads[u].found ==> t == u)
  {
    LockHolds(events);
    assert ThreadOk(Execute(events), t);
  }

  /** The nested lock raises instead of blocking, so whoever holds the lock can always go on. */
  lemma LockHolderIsNeverStuck(events: seq<Event>)
    requires Execute(events).owner != -1
    ensures Execute(events).owner >= 0 && Enabled(Execute(events), Step(Execute(events).owner))
  {
    LockHolds(events);
    assert ThreadOk(Execute(events), Execute(events).owner);
  }

  predicate Ended(pc: Pc) {
    pc.Done? || pc.Raised?
  }

  /** A kill that has not ended can go on, unless it needs the lock and another kill holds it. */
  lemma OnlyTheLockHoldsUp(events: seq<Event>, t: nat)
    requires t in Execute(events).threads && !Ended(Execute(events).threads[t].pc)
    ensures var s := Execute(events);
            Enabled(s, Step(t)) <==>
            !((s.threads[t].pc.Locking? || s.threads[t].pc.Removing?) && s.owner != -1 && s.owner != t)
  {
    LockHolds(events);
    assert ThreadOk(Execute(events), t);
  }

  /** A kill may begin at any time, and the reader may stop at any time; neither touches the kills there are. */
  lemma BeginsAndStops(events: seq<Event>, t: nat, byId: bool)
    ensures var s, s' := Execute(events), Execute(events + [Spawn(t, byId)]);
            t !in s.threads ==>
              s' == s.(threads := s.threads[t := Thread(byId, false, if byId then Locking else Checking)])
    ensures var s, s' := Execute(events), Execute(events + [ReaderStops]);
            s' == s.(closed := true, log := s.log + [ReaderExit])
  {
    Then(events, Spawn(t, byId));
    Then(events, ReaderStops);
  }

  // ---------------------------------------------------------- the effects of a kill

  /** A kill that raised, or a reaper's kill that is done, has run all its steps. */
  predicate Complete(th: Thread) {
    th.pc.Raised? || (th.pc.Done? && !th.byId)
  }

  /** What a thread has brought about by the time it is where it is. */
  predicate EffectOk(s: State, t: nat)
    requires t in s.threads
  {
    var th := s.threads[t];
    && (th.pc.Signalling? || th.pc.Closing? || th.pc.Removing? || Complete(th) ==> s.closed)
    && (th.pc.Removing? || Complete(th) ==> !s.masterOpen)
    && (th.pc.Raised? || th.pc.Done? ==> !s.registered)
  }

  ghost predicate EffectInv(s: State) {
    forall t :: t in s.threads ==> EffectOk(s, t)
  }

  /** A step changes one thread, and takes no effect back. */
  ghost predicate EffectMove(s: State, s': State, t: nat) {
    && t in s'.threads
    && s'.threads == s.threads[t := s'.threads[t]]
    && EffectOk(s', t)
    && (s.closed ==> s'.closed) && (s'.masterOpen ==> s.masterOpen) && (s'.registered ==> s.registered)
  }

  lemma EffectMoveKeepsInv(s: State, s': State, t: nat)
    requires EffectInv(s) && EffectMove(s, s', t)
    ensures EffectInv(s')
  {
    forall u | u in s'.threads && u != t
      ensures EffectOk(s', u)
    {
      assert EffectOk(s, u);
    }
  }

  lemma StepIsEffectMove(s: State, t: nat)
    requires LockInv(s) && EffectInv(s) && Enabled(s, Step(t))
    ensures EffectMove(s, StepOf(s, t), t)
  {
    assert ThreadOk(s, t) && EffectOk(s, t);
  }

  lemma StepKeepsEffects(s: State, e: Event)
    requires LockInv(s) && EffectInv(s)
    ensures EffectInv(Next(s, e))
  {
    if Enabled(s, e) {
      match e
      case Spawn(t, _) =>
        assert EffectMove(s, Next(s, e), t);
        EffectMoveKeepsInv(s, Next(s, e), t);
      case Step(t) =>
        StepIsEffectMove(s, t);
        EffectMoveKeepsInv(s, StepOf(s, t), t);
      case ReaderStops =>
        assert forall t :: t in s.threads && EffectOk(s, t) ==> EffectOk(Next(s, e), t);
    }
  }

  lemma {:induction false} EffectsHold(events: seq<Event>)
    ensures EffectInv(Execute(events))
  {
    if events != [] {
      EffectsHold(events[..|events| - 1]);
      LockHolds(events[..|events| - 1]);
      StepKeepsEffects(Execute(events[..|events| - 1]), events[|events| - 1]);
    }
  }

  /**
   * In every interleaving, a kill that raised, or a reaper's kill that is done, leaves the session
   * closed, its master closed and its entry gone; so does a kill by id that found nothing, as far
   * as the entry goes.
   */
  lemma EndedKillIsComplete(events: seq<Event>, t: nat)
    requires t in Execute(events).threads
    ensures var s := Execute(events);
            && (Complete(s.threads[t]) ==> s.closed && !s.masterOpen && !s.registered)
            && (s.threads[t].pc.Done? ==> !s.registered)
  {
    EffectsHold(events);
    assert EffectOk(Execute(events), t);
  }

  // ------------------------------------------------- what a kill by id finds, and its end

  /** A kill by id that has found its session, and has raised if it has ended. */
  predicate HasFound(s: State, t: nat) {
    && t in s.threads && s.threads[t].byId && s.threads[t].found
    && !s.threads[t].pc.Locking? && !s.threads[t].pc.Deleting?
  }

  predicate CameTooLate(s: State, t: nat) {
    t in s.threads && s.threads[t] == Thread(true, false, Done)
  }

  lemma StepKeepsFound(s: State, e: Event, t: nat)
    ensures HasFound(s, t) ==> HasFound(Next(s, e), t)
    ensures CameTooLate(s, t) ==> CameTooLate(Next(s, e), t)
  {
  }

  lemma {:induction false} FoundForGood(events: seq<Event>, n: nat, t: nat)
    requires n <= |events|
    ensures HasFound(Execute(events[..n]), t) ==> HasFound(Execute(events), t)
    ensures CameTooLate(Execute(events[..n]), t) ==> CameTooLate(Execute(events), t)
  {
    if n == |events| {
      assert events[..n] == events;
    } else {
      var k := |events| - 1;
      assert events[..k][..n] == events[..n];
      FoundForGood(events[..k], n, t);
      StepKeepsFound(Execute(events[..k]), events[k], t);
    }
  }

  /** The state after a kill by id has looked and found nothing. */
  function AfterMiss(s: State, t: nat): State {
    s.(owner := -1, threads := s.threads[t := Thread(true, false, Done)])
  }

  lemma LooksUp(s: State, t: nat)
    requires LockInv(s) && t in s.threads && s.threads[t].pc.Deleting?
    ensures s.registered ==> HasFound(Next(s, Step(t)), t) && !Next(s, Step(t)).registered
    ensures !s.registered ==> Next(s, Step(t)) == AfterMiss(s, t)
  {
    assert ThreadOk(s, t);
  }

  /**
   * A kill by id finds its session exactly if it is registered when it looks, closed or not. Then,
   * whatever happens next, it ends by raising, with the session closed, the master closed and the
   * entry gone; otherwise it ends at once and changes nothing.
   */
  lemma KillByIdFindsIff(events: seq<Event>, k: nat, t: nat)
    requires k < |events| && events[k] == Step(t)
    requires t in Execute(events[..k]).threads && Execute(events[..k]).threads[t].pc.Deleting?
    ensures var s, s' := Execute(events[..k]), Execute(events);
            && t in s'.threads
            && (s'.threads[t].found <==> s.registered)
            && (s.registered && (s'.threads[t].pc.Done? || s'.threads[t].pc.Raised?) ==>
                  s'.threads[t].pc.Raised? && s'.closed && !s'.masterOpen && !s'.registered)
            && (!s.registered ==> s'.threads[t].pc.Done? && Execute(events[..k + 1]) == AfterMiss(s, t))
  {
    LockHolds(events[..k]);
    LooksUp(Execute(events[..k]), t);
    assert events[..k + 1][..k] == events[..k];
    FoundForGood(events, k + 1, t);
    LockHolds(events);
    assert t in Execute(events).threads ==> ThreadOk(Execute(events), t);
    if t in Execute(events).threads {
      EndedKillIsComplete(events, t);
    }
  }

  /** How many steps a kill has before it, at most. */
  function StepsLeft(pc: Pc): nat {
    match pc
    case Locking => 7
    case Deleting => 6
    case Checking => 5
    case Marking(_) => 4
    case Signalling(_, _) => 3
    case Closing => 2
    case Removing => 1
    case _ => 0
  }

  function StepsOf(events: seq<Event>, t: nat): nat {
    if events == [] then 0
    else
      var rest, e := events[..|events| - 1], events[|events| - 1];
      StepsOf(rest, t) + if e == Step(t) && Enabled(Execute(rest), e) then 1 else 0
  }

  lemma OthersWait(s: State, e: Event, t: nat)
    requires t in s.threads && (e != Step(t) || !Enabled(s, e))
    ensures t in Next(s, e).threads && Next(s, e).threads[t] == s.threads[t]
  {
  }

  lemma OwnStepGoesDown(s: State, t: nat)
    requires Enabled(s, Step(t))
    ensures t in StepOf(s, t).threads
    ensures StepsLeft(StepOf(s, t).threads[t].pc) < StepsLeft(s.threads[t].pc)
  {
  }

  /** Every kill comes to its end: none makes more than seven steps, and none is done before its last. */
  lemma {:induction false} KillsEnd(events: seq<Event>, t: nat)
    ensures t in Execute(events).threads ==> StepsOf(events, t) + StepsLeft(Execute(events).threads[t].pc) <= 7
    ensures t !in Execute(events).threads ==> StepsOf(events, t) == 0
  {
    if events != [] {
      var rest, e := events[..|events| - 1], events[|events| - 1];
      KillsEnd(rest, t);
      if t in Execute(rest).threads {
        if e == Step(t) && Enabled(Execute(rest), e) {
          OwnStepGoesDown(Execute(rest), t);
        } else {
          OthersWait(Execute(rest), e, t);
        }
      }
    }
  }

  // ------------------------------------------------------------- TERM signals

  predicate Closes(a: Act) {
    a.Mark? || a.ReaderExit?
  }

  /** A mark's own check passed before it; and a TERM's own mark came before it, of the same check. */
  predicate TermOk(log: seq<Act>, k: nat)
    requires k < |log|
  {
    && (log[k].Mark? ==> log[k].check < k && log[log[k].check] == Check(log[k].thread, true))
    && (log[k].Term? ==>
          && log[k].check < log[k].mark < k
          && log[log[k].check] == Check(log[k].thread, true)
          && log[log[k].mark] == Mark(log[k].thread, log[k].check))
  }

  predicate PcOk(s: State, t: nat)
    requires t in s.threads
  {
    match s.threads[t].pc
    case Marking(c) => c < |s.log| && s.log[c] == Check(t, true)
    case Signalling(c, m) => c < m < |s.log| && s.log[c] == Check(t, true) && s.log[m] == Mark(t, c)
    case _ => true
  }

  predicate Finishing(pc: Pc) {
    pc.Closing? || pc.Removing? || pc.Done? || pc.Raised?
  }

  predicate NothingCloses(log: seq<Act>, n: nat)
    requires n <= |log|
  {
    forall i :: 0 <= i < n ==> !Closes(log[i])
  }

  /** `@closed` is set exactly when the log says so, and exactly the checks before that pass. */
  ghost predicate ClosedInv(s: State) {
    && (s.closed <==> !NothingCloses(s.log, |s.log|))
    && (forall j :: 0 <= j < |s.log| && s.log[j].Check? ==> (s.log[j].passed <==> NothingCloses(s.log, j)))
  }

  ghost predicate OrderInv(s: State) {
    && (forall k :: 0 <= k < |s.log| ==> TermOk(s.log, k))
    && (forall t :: t in s.threads ==> PcOk(s, t))
  }

  /** A thread that sent its TERM is past sending another. */
  ghost predicate OnceInv(s: State) {
    && (forall k :: 0 <= k < |s.log| && s.log[k].Term? ==>
          s.log[k].thread in s.threads && Finishing(s.threads[s.log[k].thread].pc))
    && (forall j, k :: 0 <= j < k < |s.log| && s.log[j].Term? && s.log[k].Term? ==>
          s.log[j].thread != s.log[k].thread)
  }

  ghost predicate LogInv(s: State) {
    ClosedInv(s) && OrderInv(s) && OnceInv(s)
  }

  /** What one step may do to the log: nothing, or one act by the thread that takes the step. */
  ghost predicate LogMove(s: State, s': State, t: nat) {
    && t in s'.threads
    && s'.threads == s.threads[t := s'.threads[t]]
    && PcOk(s', t)
    && (t in s.threads && Finishing(s.threads[t].pc) ==> Finishing(s'.threads[t].pc))
    && (s'.log == s.log || LogGrows(s, s', t))
  }

  ghost predicate LogGrows(s: State, s': State, t: nat) {
    && t in s'.threads
    && |s'.log| == |s.log| + 1
    && s'.log[..|s.log|] == s.log
    && TermOk(s'.log, |s.log|)
    && var a := s'.log[|s.log|];
    && (a.Term? ==> a.thread == t && t in s.threads && !Finishing(s.threads[t].pc) && Finishing(s'.threads[t].pc))
  }

  lemma LogMoveKeepsInv(s: State, s': State, t: nat)
    requires OrderInv(s) && OnceInv(s) && LogMove(s, s', t)
    ensures OrderInv(s') && OnceInv(s')
  {
    assert forall k :: 0 <= k < |s.log| ==> s'.log[k] == s.log[k];
    forall k | 0 <= k < |s.log|
      ensures TermOk(s'.log, k)
    {
      assert TermOk(s.log, k);
    }
    forall u | u in s'.threads && u != t
      ensures PcOk(s', u)
    {
      assert PcOk(s, u);
    }
  }

  predicate Acts(pc: Pc) {
    pc.Checking? || pc.Marking? || pc.Signalling?
  }

  lemma ActIsLogMove(s: State, t: nat)
    requires t in s.threads && Acts(s.threads[t].pc) && PcOk(s, t)
    ensures LogMove(s, StepOf(s, t), t)
  {
  }

  lemma StepIsLogMove(s: State, t: nat)
    requires OrderInv(s) && Enabled(s, Step(t))
    ensures LogMove(s, StepOf(s, t), t)
  {
    assert PcOk(s, t);
    if Acts(s.threads[t].pc) {
      ActIsLogMove(s, t);
    }
  }

  lemma StepKeepsOrder(s: State, e: Event)
    requires OrderInv(s) && OnceInv(s)
    ensures OrderInv(Next(s, e)) && OnceInv(Next(s, e))
  {
    if Enabled(s, e) {
      match e
      case Spawn(t, _) =>
        assert LogMove(s, Next(s, e), t);
        LogMoveKeepsInv(s, Next(s, e), t);
      case Step(t) =>
        StepIsLogMove(s, t);
        LogMoveKeepsInv(s, StepOf(s, t), t);
      case ReaderStops =>
        ReaderExitKeepsOrder(s, Next(s, e));
    }
  }

  lemma ReaderExitKeepsOrder(s: State, s': State)
    requires OrderInv(s) && OnceInv(s) && s'.threads == s.threads && s'.log == s.log + [ReaderExit]
    ensures OrderInv(s') && OnceInv(s')
  {
    assert forall k :: 0 <= k < |s.log| ==> TermOk(s.log, k) && s'.log[k] == s.log[k];
    assert forall u :: u in s.threads ==> PcOk(s, u);
  }

  /** The flag changes only with an act that closes, and a check reports it. */
  predicate ClosedMove(s: State, s': State) {
    || (s'.log == s.log && s'.closed == s.closed)
    || (|s'.log| == |s.log| + 1 && s'.log[..|s.log|] == s.log &&
        var a := s'.log[|s.log|];
        && s'.closed == (s.closed || Closes(a))
        && (a.Check? ==> a.passed == !s.closed))
  }

  lemma ClosedMoveKeepsInv(s: State, s': State)
    requires ClosedInv(s) && ClosedMove(s, s')
    ensures ClosedInv(s')
  {
    if s'.log != s.log {
      assert forall k :: 0 <= k < |s.log| ==> s'.log[k] == s.log[k];
      forall j | 0 <= j <= |s.log|
        ensures NothingCloses(s'.log, j) <==> NothingCloses(s.log, j)
      {
      }
    }
  }

  lemma StepIsClosedMove(s: State, e: Event)
    ensures ClosedMove(s, Next(s, e))
  {
  }

  /** The thread is on its way from this check to its TERM. */
  predicate Under(pc: Pc, check: nat) {
    (pc.Marking? || pc.Signalling?) && pc.check == check
  }

  predicate TermAt(log: seq<Act>, k: nat, t: nat) {
    k < |log| && log[k].Term? && log[k].thread == t
  }

  /** A check that passed leads to a TERM: it is sent, or the thread is on its way to it. */
  ghost predicate Pursued(s: State, c: nat)
    requires c < |s.log| && s.log[c].Check?
  {
    var t := s.log[c].thread;
    && t in s.threads
    && (Under(s.threads[t].pc, c) || exists k: nat :: TermAt(s.log, k, t))
  }

  ghost predicate PursuitInv(s: State) {
    forall c :: 0 <= c < |s.log| && s.log[c].Check? && s.log[c].passed ==> Pursued(s, c)
  }

  /** As far as checks that passed go, a step adds one, takes one further, or sends its TERM. */
  ghost predicate PursuitMove(s: State, s': State, t: nat) {
    && t in s'.threads
    && s'.threads == s.threads[t := s'.threads[t]]
    && |s.log| <= |s'.log| <= |s.log| + 1
    && s'.log[..|s.log|] == s.log
    && (t in s.threads ==> forall c ::
          Under(s.threads[t].pc, c) ==> Under(s'.threads[t].pc, c) || TermAt(s'.log, |s.log|, t))
    && (|s'.log| > |s.log| && s'.log[|s.log|].Check? && s'.log[|s.log|].passed ==>
          s'.log[|s.log|].thread == t && Under(s'.threads[t].pc, |s.log|))
  }

  lemma PursuitMoveKeepsInv(s: State, s': State, t: nat)
    requires PursuitInv(s) && PursuitMove(s, s', t)
    ensures PursuitInv(s')
  {
    assert forall k :: 0 <= k < |s.log| ==> s'.log[k] == s.log[k];
    forall c | 0 <= c < |s.log| && s'.log[c].Check? && s'.log[c].passed
      ensures Pursued(s', c)
    {
      var u := s.log[c].thread;
      assert Pursued(s, c);
      if k: nat :| TermAt(s.log, k, u) {
        assert TermAt(s'.log, k, u);
      }
    }
  }

  lemma StepIsPursuitMove(s: State, t: nat)
    requires Enabled(s, Step(t))
    ensures PursuitMove(s, StepOf(s, t), t)
  {
  }

  lemma ReaderExitKeepsPursuit(s: State, s': State)
    requires PursuitInv(s) && s'.threads == s.threads && s'.log == s.log + [ReaderExit]
    ensures PursuitInv(s')
  {
    assert forall k :: 0 <= k < |s.log| ==> s'.log[k] == s.log[k];
    forall c | 0 <= c < |s.log| && s'.log[c].Check? && s'.log[c].passed
      ensures Pursued(s', c)
    {
      assert Pursued(s, c);
      if k: nat :| TermAt(s.log, k, s.log[c].thread) {
        assert TermAt(s'.log, k, s.log[c].thread);
      }
    }
  }

  lemma StepKeepsPursuit(s: State, e: Event)
    requires PursuitInv(s)
    ensures PursuitInv(Next(s, e))
  {
    if Enabled(s, e) {
      match e
      case Spawn(t, _) =>
        assert PursuitMove(s, Next(s, e), t);
        PursuitMoveKeepsInv(s, Next(s, e), t);
      case Step(t) =>
        StepIsPursuitMove(s, t);
        PursuitMoveKeepsInv(s, StepOf(s, t), t);
      case ReaderStops =>
        ReaderExitKeepsPursuit(s, Next(s, e));
    }
  }

  lemma {:induction false} LogHolds(events: seq<Event>)
    ensures LogInv(Execute(events)) && PursuitInv(Execute(events))
  {
    if events != [] {
      LogHolds(events[..|events| - 1]);
      var s, e := Execute(events[..|events| - 1]), events[|events| - 1];
      StepIsClosedMove(s, e);
      ClosedMoveKeepsInv(s, Next(s, e));
      StepKeepsOrder(s, e);
      StepKeepsPursuit(s, e);
    }
  }

  /** The thread's kill has come to its clean-up, or has ended. */
  predicate Finished(s: State, t: nat) {
    t in s.threads && Finishing(s.threads[t].pc)
  }

  ghost predicate SendsTerm(log: seq<Act>, t: nat) {
    exists k: nat :: TermAt(log, k, t)
  }

  predicate CheckAt(log: seq<Act>, c: nat, t: nat) {
    c < |log| && log[c].Check? && log[c].thread == t
  }

  predicate MarkAt(log: seq<Act>, m: nat, t: nat) {
    m < |log| && log[m].Mark? && log[m].thread == t
  }

  /** The thread checked before anything had closed the session. */
  ghost predicate ChecksFirst(log: seq<Act>, t: nat) {
    exists c: nat :: CheckAt(log, c, t) && NothingCloses(log, c)
  }

  /** What the log says of a TERM: its check came before everything that closes the session. */
  lemma TermHasCheck(s: State, k: nat, t: nat)
    requires LogInv(s) && TermAt(s.log, k, t)
    ensures var c, m := s.log[k].check, s.log[k].mark;
            CheckAt(s.log, c, t) && NothingCloses(s.log, c) && MarkAt(s.log, m, t) && c < m < k
  {
    assert TermOk(s.log, k);
  }

  lemma PassedCheckHasTerm(s: State, c: nat, t: nat)
    requires LogInv(s) && PursuitInv(s) && Finished(s, t) && CheckAt(s.log, c, t) && s.log[c].passed
    ensures SendsTerm(s.log, t)
  {
    assert Pursued(s, c);
  }

  /**
   * Whether or not the kills have ended: two TERMs are sent only by two kills that both checked
   * `@closed` before either set it, and a TERM after the reader's exit only by a kill that had
   * checked before it.
   */
  lemma SecondTermNeedsOverlap(events: seq<Event>, j: nat, k: nat)
    requires j < k < |Execute(events).log| && Execute(events).log[k].Term?
    ensures var log := Execute(events).log;
            && (log[j].Term? ==>
                  && log[j].thread != log[k].thread
                  && log[j].check < log[k].mark && log[k].check < log[j].mark)
            && (log[j].ReaderExit? ==> log[k].check < j)
  {
    LogHolds(events);
    SecondTermIn(Execute(events), j, k);
  }

  lemma SecondTermIn(s: State, j: nat, k: nat)
    requires LogInv(s) && j < k < |s.log| && s.log[k].Term?
    ensures s.log[j].Term? ==>
              && s.log[j].thread != s.log[k].thread
              && s.log[j].check < s.log[k].mark && s.log[k].check < s.log[j].mark
    ensures s.log[j].ReaderExit? ==> s.log[k].check < j
  {
    TermHasCheck(s, k, s.log[k].thread);
    if s.log[j].Term? {
      TermHasCheck(s, j, s.log[j].thread);
      assert Closes(s.log[s.log[j].mark]) && Closes(s.log[s.log[k].mark]);
    } else if s.log[j].ReaderExit? {
      assert Closes(s.log[j]);
    }
  }

  /**
   * Which kills send a TERM: a kill that has come to its clean-up sent one if and only if it
   * checked `@closed` before any kill had set it and before the reader had stopped.
   */
  lemma TermIff(events: seq<Event>, t: nat)
    requires Finished(Execute(events), t)
    ensures SendsTerm(Execute(events).log, t) <==> ChecksFirst(Execute(events).log, t)
  {
    LogHolds(events);
    TermIffIn(Execute(events), t);
  }

  lemma TermIffIn(s: State, t: nat)
    requires LogInv(s) && PursuitInv(s) && Finished(s, t)
    ensures SendsTerm(s.log, t) <==> ChecksFirst(s.log, t)
  {
    if k: nat :| TermAt(s.log, k, t) {
      TermHasCheck(s, k, t);
    }
    if c: nat :| CheckAt(s.log, c, t) && NothingCloses(s.log, c) {
      PassedCheckHasTerm(s, c, t);
    }
  }

  /** Each of two kills checked before the other set the flag. */
  ghost predicate Overlap(log: seq<Act>, t: nat, u: nat) {
    exists c: nat, d: nat, m: nat, n: nat ::
      CheckAt(log, c, t) && CheckAt(log, d, u) && MarkAt(log, m, t) && MarkAt(log, n, u) && c < n && d < m
  }

  /** Two TERMs: two kills both send one if and only if each checked before the other set the flag. */
  lemma TwoTermsIff(events: seq<Event>, t: nat, u: nat)
    requires t != u && Finished(Execute(events), t) && Finished(Execute(events), u)
    ensures SendsTerm(Execute(events).log, t) && SendsTerm(Execute(events).log, u) <==>
            Overlap(Execute(events).log, t, u)
  {
    LogHolds(events);
    TwoTermsIffIn(Execute(events), t, u);
  }

  lemma TwoTermsIffIn(s: State, t: nat, u: nat)
    requires LogInv(s) && PursuitInv(s) && Finished(s, t) && Finished(s, u)
    ensures SendsTerm(s.log, t) && SendsTerm(s.log, u) <==> Overlap(s.log, t, u)
  {
    if SendsTerm(s.log, t) && SendsTerm(s.log, u) {
      var k: nat :| TermAt(s.log, k, t);
      var l: nat :| TermAt(s.log, l, u);
      TermHasCheck(s, k, t);
      TermHasCheck(s, l, u);
      assert Closes(s.log[s.log[k].mark]) && Closes(s.log[s.log[l].mark]);
    } else if Overlap(s.log, t, u) {
      var m: nat :| MarkAt(s.log, m, t);
      var n: nat :| MarkAt(s.log, n, u);
      assert TermOk(s.log, m) && TermOk(s.log, n);
      PassedCheckHasTerm(s, s.log[m].check, t);
      PassedCheckHasTerm(s, s.log[n].check, u);
    }
  }

  /**
   * A TERM after the reader's exit: a kill sends one if and only if its check had passed before
   * the exit and its TERM had not been sent by then.
   */
  lemma TermAfterExitIff(events: seq<Event>, t: nat, j: nat)
    requires Finished(Execute(events), t)
    requires j < |Execute(events).log| && Execute(events).log[j].ReaderExit?
    ensures var log := Execute(events).log;
            (exists k: nat :: j < k && TermAt(log, k, t)) <==>
            (exists c: nat :: c < j && CheckAt(log, c, t) && log[c].passed) && !SendsTerm(log[..j], t)
  {
    LogHolds(events);
    TermAfterExitIffIn(Execute(events), t, j);
  }

  lemma TermAfterExitIffIn(s: State, t: nat, j: nat)
    requires LogInv(s) && PursuitInv(s) && Finished(s, t) && j < |s.log| && s.log[j].ReaderExit?
    ensures (exists k: nat :: j < k && TermAt(s.log, k, t)) <==>
            (exists c: nat :: c < j && CheckAt(s.log, c, t) && s.log[c].passed) && !SendsTerm(s.log[..j], t)
  {
    assert forall k: nat :: TermAt(s.log[..j], k, t) <==> k < j && TermAt(s.log, k, t);
    if k: nat :| j < k && TermAt(s.log, k, t) {
      TermHasCheck(s, k, t);
      assert Closes(s.log[j]);
      assert s.log[k].check < j;
    } else if c: nat :| c < j && CheckAt(s.log, c, t) && s.log[c].passed {
      PassedCheckHasTerm(s, c, t);
      var k: nat :| TermAt(s.log, k, t);
      assert k < j;
      assert TermAt(s.log[..j], k, t);
    }
  }

  /** When a passing check and its mark are one step, at most one TERM is ever sent. */
  lemma AtMostOneTermWhenAtomic(events: seq<Event>, j: nat, k: nat)
    requires var log := Execute(events).log;
             forall i :: 0 <= i < |log| && log[i].Check? && log[i].passed ==>
               i + 1 < |log| && log[i + 1].Mark? && log[i + 1].thread == log[i].thread
    requires j < |Execute(events).log| && k < |Execute(events).log|
    requires Execute(events).log[j].Term? && Execute(events).log[k].Term?
    ensures j == k
  {
    LogHolds(events);
    var s := Execute(events);
    TermHasCheck(s, j, s.log[j].thread);
    TermHasCheck(s, k, s.log[k].thread);
    var cj, ck := s.log[j].check, s.log[k].check;
    assert Closes(s.log[cj + 1]) && Closes(s.log[ck + 1]);
    assert cj == ck;
  }

  // --------------------------------------------------------- runs that show it

  /** A kill by id, thread 0, and the reaper, thread 1: both check before either marks. */
  const BothSpawn := [Spawn(0, true), Spawn(1, false)]
  const BothCheck := [Step(0), Step(0), Step(0), Step(1)]
  const BothTerm := [Step(0), Step(1), Step(0), Step(1)]

  lemma TwoTermsCanBeSent()
    ensures Execute(BothSpawn + BothCheck + BothTerm).log ==
            [Check(0, true), Check(1, true), Mark(0, 0), Mark(1, 1), Term(0, 0, 2), Term(1, 1, 3)]
  {
    BothPassTheCheck();
    TermsFollow(BothSpawn + BothCheck);
  }

  lemma TermsFollow(events: seq<Event>)
    requires Execute(events).threads == Two(Marking(0), Marking(1)) && |Execute(events).log| == 2
    ensures Execute(events + BothTerm).log ==
            Execute(events).log + [Mark(0, 0), Mark(1, 1), Term(0, 0, 2), Term(1, 1, 3)]
  {
    UnfoldFour(events, BothTerm);
    BothMarkAndTerm(Execute(events));
  }

  /** The kill by id has found the session; the reaper never looks. */
  function Two(a: Pc, b: Pc): map<nat, Thread> {
    map[0 := Thread(true, true, a), 1 := Thread(false, false, b)]
  }

  lemma BothPassTheCheck()
    ensures var s := Execute(BothSpawn + BothCheck);
            s.threads == Two(Marking(0), Marking(1)) && s.log == [Check(0, true), Check(1, true)]
  {
    UnfoldTwo(BothSpawn[0], BothSpawn[1]);
    UnfoldFour(BothSpawn, BothCheck);
    BothCheckFrom(Next(Next(Init, BothSpawn[0]), BothSpawn[1]));
  }

  lemma BothCheckFrom(s: State)
    requires s == Next(Next(Init, Spawn(0, true)), Spawn(1, false))
    ensures var s' := Next(Next(Next(Next(s, Step(0)), Step(0)), Step(0)), Step(1));
            s'.threads == Two(Marking(0), Marking(1)) && s'.log == [Check(0, true), Check(1, true)]
  {
    assert s.threads == map[0 := Thread(true, false, Locking), 1 := Thread(false, false, Checking)];
    var s1 := Next(s, Step(0));
    assert s1.threads == map[0 := Thread(true, false, Deleting), 1 := Thread(false, false, Checking)];
    var s2 := Next(s1, Step(0));
    assert s2.threads == Two(Checking, Checking);
    var s3 := Next(s2, Step(0));
    assert s3.threads == Two(Marking(0), Checking) && s3.log == [] + [Check(0, true)];
  }

  lemma BothMarkAndTerm(s: State)
    requires s.threads == Two(Marking(0), Marking(1)) && |s.log| == 2
    ensures Next(Next(Next(Next(s, Step(0)), Step(1)), Step(0)), Step(1)).log ==
            s.log + [Mark(0, 0), Mark(1, 1), Term(0, 0, 2), Term(1, 1, 3)]
  {
    var s1 := Next(s, Step(0));
    assert s1.threads == Two(Signalling(0, 2), Marking(1)) && s1.log == s.log + [Mark(0, 0)];
    var s2 := Next(s1, Step(1));
    assert s2.threads == Two(Signalling(0, 2), Signalling(1, 3)) && s2.log == s1.log + [Mark(1, 1)];
    var s3 := Next(s2, Step(0));
    assert s3.threads == Two(Closing, Signalling(1, 3)) && s3.log == s2.log + [Term(0, 0, 2)];
  }

  /** A kill that has checked; then the reader stops by itself; then the TERM goes out all the same. */
  const LateTermRun := [Spawn(0, false)] + [Step(0), ReaderStops, Step(0), Step(0)]

  lemma TermAfterReaderExit()
    ensures Execute(LateTermRun).log == [Check(0, true), ReaderExit, Mark(0, 0), Term(0, 0, 2)]
  {
    Then([], Spawn(0, false));
    assert [] + [Spawn(0, false)] == [Spawn(0, false)];
    UnfoldFour([Spawn(0, false)], [Step(0), ReaderStops, Step(0), Step(0)]);
    LateTerm(Next(Init, Spawn(0, false)));
  }

  lemma LateTerm(s: State)
    requires s == Next(Init, Spawn(0, false))
    ensures Next(Next(Next(Next(s, Step(0)), ReaderStops), Step(0)), Step(0)).log ==
            [Check(0, true), ReaderExit, Mark(0, 0), Term(0, 0, 2)]
  {
    assert s.threads == map[0 := Thread(false, false, Checking)];
    var s1 := Next(s, Step(0));
    assert s1.threads == map[0 := Thread(false, false, Marking(0))] && s1.log == [] + [Check(0, true)];
    var s2 := Next(s1, ReaderStops);
    assert s2.threads == s1.threads && s2.log == s1.log + [ReaderExit];
    var s3 := Next(s2, Step(0));
    assert s3.threads == map[0 := Thread(false, false, Signalling(0, 2))] && s3.log == s2.log + [Mark(0, 0)];
  }

  lemma Then(events: seq<Event>, e: Event)
    ensures Execute(events + [e]) == Next(Execute(events), e)
  {
    assert (events + [e])[..|events|] == events;
  }

  lemma UnfoldFour(events: seq<Event>, r: seq<Event>)
    requires |r| == 4
    ensures Execute(events + r) == Next(Next(Next(Next(Execute(events), r[0]), r[1]), r[2]), r[3])
  {
    assert events + r == events + [r[0]] + [r[1]] + [r[2]] + [r[3]];
    Then(events, r[0]);
    Then(events + [r[0]], r[1]);
    Then(events + [r[0]] + [r[1]], r[2]);
    Then(events + [r[0]] + [r[1]] + [r[2]], r[3]);
  }

  lemma UnfoldTwo(a: Event, b: Event)
    ensures Execute([a, b]) == Next(Next(Init, a), b)
  {
    assert [] + [a] == [a] && [a] + [b] == [a, b];
    Then([], a);
    Then([a], b);
  }
}
