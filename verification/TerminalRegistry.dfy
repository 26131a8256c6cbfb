/**
 * The process-wide table of terminal sessions: opening, killing, listing and reaping them.
 *
 * The value-level functions say what each operation does to one session and to the table; the
 * lemmas are about every run of them, and the classes at the end implement them with objects.
 */
module TerminalRegistry {

  const IDLE_TTL: int := 30 * 60

  /** How `start` ended: the name check and the spawn can both raise. */
  datatype Start = Started | NameRejected | SpawnFailed

  datatype Sess = Sess(
    id: string,
    vm: string,
    createdAt: int,
    spawned: bool,
    closed: bool,
    masterOpen: bool,
    slaveOpen: bool,
    terms: nat)

  /** The entry that `open` leaves behind, also when `start` raised: it was registered first. */
  function Opened(id: string, vm: string, now: int, start: Start): Sess {
    Sess(id, vm, now, start.Started?, false, !start.NameRejected?, start.SpawnFailed?, 0)
  }

  /** `kill` on the session: its clean-up runs on the early return too. */
  function Killed(s: Sess): Sess {
    var t := if s.closed then s else s.(closed := true, terms := s.terms + if s.spawned then 1 else 0);
    t.(masterOpen := false, slaveOpen := false)
  }

  function AfterReap(s: Sess, reaped: bool): Sess {
    if reaped then Killed(s) else s
  }

  function Ids(list: seq<string>): set<string> {
    set id | id in list
  }

  lemma IdsStep(list: seq<string>, id: string)
    ensures Ids(list + [id]) == Ids(list) + {id}
  {
  }

  /** Old enough, and nobody is subscribed to its output. */
  predicate Idle(s: Sess, now: int, listening: set<string>) {
    s.createdAt <= now - IDLE_TTL && s.id !in listening
  }

  // -------------------------------------------------------------- runs

  /** `heap` holds every session ever created, by an object number; `table` the registered ones. */
  datatype World = World(table: map<string, nat>, heap: map<nat, Sess>)

  datatype Event =
    | Open(handle: nat, id: string, vm: string, now: int, start: Start)
    | ReaderExit(handle: nat)
    | KillSession(handle: nat)
    | KillById(id: string)
    | Reap(now: int, listening: set<string>)

  /** Object numbers and session ids are fresh (ids are 128 random bits). */
  predicate Enabled(w: World, e: Event) {
    match e
    case Open(h, id, _, _, _) => h !in w.heap && forall k :: k in w.heap ==> w.heap[k].id != id
    case ReaderExit(h) => h in w.heap && w.heap[h].spawned
    case KillSession(h) => h in w.heap
    case KillById(id) => id in w.table ==> w.table[id] in w.heap
    case Reap(_, _) => true
  }

  predicate Registered(w: World, h: nat) {
    h in w.heap && w.heap[h].id in w.table && w.table[w.heap[h].id] == h
  }

  predicate Reaped(w: World, h: nat, now: int, listening: set<string>) {
    Registered(w, h) && Idle(w.heap[h], now, listening)
  }

  function AfterKill(w: World, id: string, h: nat): World
    requires h in w.heap
  {
    World(w.table - {id}, w.heap[h := Killed(w.heap[h])])
  }

  function AfterExit(w: World, h: nat): World
    requires h in w.heap
  {
    w.(heap := w.heap[h := w.heap[h].(closed := true)])
  }

  function AfterReaping(w: World, now: int, listening: set<string>): World {
    World(
      map id | id in w.table && !Reaped(w, w.table[id], now, listening) :: w.table[id],
      map h | h in w.heap :: AfterReap(w.heap[h], Reaped(w, h, now, listening)))
  }

  function Next(w: World, e: Event): World {
    if !Enabled(w, e) then w else
    match e
    case Open(h, id, vm, now, start) =>
      World(w.table[id := h], w.heap[h := Opened(id, vm, now, start)])
    case ReaderExit(h) => AfterExit(w, h)
    case KillSession(h) => AfterKill(w, w.heap[h].id, h)
    case KillById(id) => if id in w.table then AfterKill(w, id, w.table[id]) else w
    case Reap(now, listening) => AfterReaping(w, now, listening)
  }

  function Execute(w: World, events: seq<Event>): World {
    if events == [] then w
    else Next(Execute(w, events[..|events| - 1]), events[|events| - 1])
  }

  const Empty := World(map[], map[])

  /**
   * Each key maps to the session with that id; ids are never shared; the process group is
   * TERMed at most once, and only if the session is closed; whatever is not registered any more
   * is closed and has given its descriptors back.
   */
  ghost predicate Inv(w: World) {
    && (forall id :: id in w.table ==> w.table[id] in w.heap && w.heap[w.table[id]].id == id)
    && (forall h, k :: h in w.heap && k in w.heap && w.heap[h].id == w.heap[k].id ==> h == k)
    && (forall h :: h in w.heap ==> w.heap[h].terms <= 1 && (w.heap[h].terms == 1 ==> w.heap[h].closed))
    && (forall h :: h in w.heap && !Registered(w, h) ==>
          w.heap[h].closed && !w.heap[h].masterOpen && !w.heap[h].slaveOpen)
  }

  lemma OpenKeepsInv(w: World, e: Event)
    requires Inv(w) && e.Open? && Enabled(w, e)
    ensures Inv(Next(w, e))
  {
  }

  lemma ExitKeepsInv(w: World, h: nat)
    requires Inv(w) && h in w.heap
    ensures Inv(AfterExit(w, h))
  {
    assert forall k :: k in w.heap ==> AfterExit(w, h).heap[k].id == w.heap[k].id;
  }

  lemma KillKeepsInv(w: World, h: nat)
    requires Inv(w) && h in w.heap
    ensures Inv(AfterKill(w, w.heap[h].id, h))
  {
    var w' := AfterKill(w, w.heap[h].id, h);
    assert forall k :: k in w.heap ==> w'.heap[k].id == w.heap[k].id;
    forall k | k in w'.heap && !Registered(w', k)
      ensures w'.heap[k].closed && !w'.heap[k].masterOpen && !w'.heap[k].slaveOpen
    {
      assert k == h || !Registered(w, k);
    }
  }

  lemma ReapKeepsInv(w: World, now: int, listening: set<string>)
    requires Inv(w)
    ensures Inv(AfterReaping(w, now, listening))
  {
    var w' := AfterReaping(w, now, listening);
    forall h | h in w'.heap && !Registered(w', h)
      ensures w'.heap[h].closed && !w'.heap[h].masterOpen && !w'.heap[h].slaveOpen
    {
      if Registered(w, h) {
        assert Reaped(w, h, now, listening);
      }
    }
  }

  lemma StepKeepsInv(w: World, e: Event)
    requires Inv(w)
    ensures Inv(Next(w, e))
  {
    if Enabled(w, e) {
      match e
      case Open(_, _, _, _, _) => OpenKeepsInv(w, e);
      case ReaderExit(h) => ExitKeepsInv(w, h);
      case KillSession(h) => KillKeepsInv(w, h);
      case KillById(id) =>
        if id in w.table {
          assert w.heap[w.table[id]].id == id;
          KillKeepsInv(w, w.table[id]);
        }
      case Reap(now, listening) => ReapKeepsInv(w, now, listening);
    }
  }

  lemma {:induction false} InvHolds(events: seq<Event>)
    ensures Inv(Execute(Empty, events))
  {
    if events != [] {
      InvHolds(events[..|events| - 1]);
      StepKeepsInv(Execute(Empty, events[..|events| - 1]), events[|events| - 1]);
    }
  }

  /**
   * `@closed` never goes back to false, and once it is set - by a kill or by the reader's exit -
   * no further TERM is ever sent to the session, whatever happens next.
   */
  lemma {:induction false} ClosedIsFinal(w: World, events: seq<Event>, h: nat)
    requires h in w.heap && w.heap[h].closed
    ensures var w' := Execute(w, events);
            h in w'.heap && w'.heap[h].closed && w'.heap[h].terms == w.heap[h].terms
  {
    if events != [] {
      ClosedIsFinal(w, events[..|events| - 1], h);
    }
  }

  predicate Gone(w: World, h: nat) {
    h in w.heap && !Registered(w, h)
  }

  lemma GoneStep(w: World, e: Event, h: nat)
    requires Inv(w) && Gone(w, h)
    ensures Gone(Next(w, e), h)
  {
    if Enabled(w, e) && e.Reap? {
      assert AfterReaping(w, e.now, e.listening).heap[h].id == w.heap[h].id;
    }
  }

  /** A session that was killed or reaped stays unregistered, with its master closed. */
  lemma {:induction false} GoneIsFinal(w: World, events: seq<Event>, h: nat)
    requires Inv(w) && Gone(w, h)
    ensures var w' := Execute(w, events);
            Gone(w', h) && w'.heap[h].closed && !w'.heap[h].masterOpen
  {
    if events != [] {
      var rest, last := events[..|events| - 1], events[|events| - 1];
      GoneIsFinal(w, rest, h);
      InvFrom(w, rest);
      GoneStep(Execute(w, rest), last, h);
    }
    InvFrom(w, events);
  }

  lemma {:induction false} InvFrom(w: World, events: seq<Event>)
    requires Inv(w)
    ensures Inv(Execute(w, events))
  {
    if events != [] {
      InvFrom(w, events[..|events| - 1]);
      StepKeepsInv(Execute(w, events[..|events| - 1]), events[|events| - 1]);
    }
  }

  /**
   * A kill unregisters its session with the master closed and TERMs it exactly if it was running,
   * and touches no other session; killing by id does the same to the session of that id.
   */
  lemma KillEnds(events: seq<Event>, h: nat)
    requires h in Execute(Empty, events).heap
    ensures var w := Execute(Empty, events);
            var w' := Next(w, KillSession(h));
            && !Registered(w', h) && w'.heap[h].closed && !w'.heap[h].masterOpen
            && w'.heap[h].terms == (if w.heap[h].spawned && !w.heap[h].closed then 1 else w.heap[h].terms)
            && (forall k :: k in w.heap && k != h ==>
                  w'.heap[k] == w.heap[k] && (Registered(w', k) <==> Registered(w, k)))
            && (Registered(w, h) ==> Next(w, KillById(w.heap[h].id)) == w')
  {
    InvHolds(events);
    KillEndsIn(Execute(Empty, events), h);
  }

  lemma KillSparesOthers(w: World, h: nat, k: nat)
    requires Inv(w) && h in w.heap && k in w.heap && k != h
    ensures var w' := AfterKill(w, w.heap[h].id, h);
            w'.heap[k] == w.heap[k] && (Registered(w', k) <==> Registered(w, k))
  {
    assert w.heap[k].id != w.heap[h].id;
  }

  lemma KillEndsIn(w: World, h: nat)
    requires Inv(w) && h in w.heap
    ensures var w' := Next(w, KillSession(h));
            && !Registered(w', h) && w'.heap[h] == Killed(w.heap[h])
            && (w.heap[h].terms == 1 ==> w.heap[h].closed)
            && (forall k :: k in w.heap && k != h ==>
                  w'.heap[k] == w.heap[k] && (Registered(w', k) <==> Registered(w, k)))
            && (Registered(w, h) ==> Next(w, KillById(w.heap[h].id)) == w')
  {
    var w' := AfterKill(w, w.heap[h].id, h);
    forall k | k in w.heap && k != h
      ensures w'.heap[k] == w.heap[k] && (Registered(w', k) <==> Registered(w, k))
    {
      KillSparesOthers(w, h, k);
    }
  }

  lemma Then(events: seq<Event>, e: Event)
    ensures Execute(Empty, events + [e]) == Next(Execute(Empty, events), e)
  {
    assert (events + [e])[..|events|] == events;
  }

  /** Whatever came before, an open under a new id registers a running session, or one that failed to start. */
  lemma OpenRegisters(events: seq<Event>, h: nat, id: string, vm: string, now: int, start: Start)
    requires h !in Execute(Empty, events).heap
    requires forall k :: k in Execute(Empty, events).heap ==> Execute(Empty, events).heap[k].id != id
    ensures var w, w' := Execute(Empty, events), Execute(Empty, events + [Open(h, id, vm, now, start)]);
            && w'.heap.Keys == w.heap.Keys + {h} && Registered(w', h)
            && w'.heap[h] == Sess(id, vm, now, start == Started, false, start != NameRejected, start == SpawnFailed, 0)
            && forall k :: k in w.heap ==> w'.heap[k] == w.heap[k] && (Registered(w', k) <==> Registered(w, k))
  {
    InvHolds(events);
    Then(events, Open(h, id, vm, now, start));
  }

  /** The reader's exit closes a running session and changes nothing else; it stays registered. */
  lemma ExitOnlyCloses(events: seq<Event>, h: nat)
    requires h in Execute(Empty, events).heap && Execute(Empty, events).heap[h].spawned
    ensures var w, w' := Execute(Empty, events), Execute(Empty, events + [ReaderExit(h)]);
            w'.table == w.table && w'.heap == w.heap[h := w.heap[h].(closed := true)]
  {
    Then(events, ReaderExit(h));
  }

  /** Nobody is subscribed, and it is half an hour old. */
  predicate Abandoned(s: Sess, now: int, listening: set<string>) {
    s.createdAt + 1800 <= now && s.id !in listening
  }

  lemma ReapsOne(w: World, now: int, listening: set<string>, h: nat)
    requires Inv(w) && h in w.heap
    ensures var w' := AfterReaping(w, now, listening);
            && h in w'.heap
            && (Registered(w', h) <==> Registered(w, h) && !Abandoned(w.heap[h], now, listening))
            && (Registered(w, h) && Abandoned(w.heap[h], now, listening) ==>
                  w'.heap[h].closed && !w'.heap[h].masterOpen && !w'.heap[h].slaveOpen)
            && (!Registered(w, h) || !Abandoned(w.heap[h], now, listening) ==> w'.heap[h] == w.heap[h])
  {
  }

  /**
   * A reap leaves every session that is heard, or younger than 30 minutes, as it was, and
   * unregisters and closes every other registered one.
   */
  lemma ReapSparesHeardAndYoung(events: seq<Event>, now: int, listening: set<string>, h: nat)
    requires h in Execute(Empty, events).heap
    ensures var w, w' := Execute(Empty, events), Execute(Empty, events + [Reap(now, listening)]);
            && h in w'.heap
            && (Registered(w', h) <==> Registered(w, h) && !Abandoned(w.heap[h], now, listening))
            && (Registered(w, h) && Abandoned(w.heap[h], now, listening) ==>
                  w'.heap[h].closed && !w'.heap[h].masterOpen && !w'.heap[h].slaveOpen)
            && (!Registered(w, h) || !Abandoned(w.heap[h], now, listening) ==> w'.heap[h] == w.heap[h])
  {
    InvHolds(events);
    Then(events, Reap(now, listening));
    ReapsOne(Execute(Empty, events), now, listening, h);
  }

  /** The table as its readers see it: the registered sessions by id. */
  function TableOf(w: World): map<string, Sess>
    requires forall id :: id in w.table ==> w.table[id] in w.heap
  {
    map id | id in w.table :: w.heap[w.table[id]]
  }

  /** A table without its idle sessions. */
  function WithoutIdle(table: map<string, Sess>, now: int, listening: set<string>): map<string, Sess> {
    map id | id in table && !Idle(table[id], now, listening) :: table[id]
  }

  /** What each event of a run makes of the table; the objects' methods below do the same. */
  function NextTable(table: map<string, Sess>, w: World, e: Event): map<string, Sess>
    requires e.KillSession? ==> e.handle in w.heap
  {
    match e
    case Open(_, id, vm, now, start) => table[id := Opened(id, vm, now, start)]
    case KillSession(h) => table - {w.heap[h].id}
    case KillById(id) => table - {id}
    case Reap(now, listening) => WithoutIdle(table, now, listening)
    case ReaderExit(h) =>
      if Registered(w, h) then table[w.heap[h].id := w.heap[h].(closed := true)] else table
  }

  lemma RunsFollowTable(w: World, e: Event)
    requires Inv(w) && Enabled(w, e)
    ensures Inv(Next(w, e)) && TableOf(Next(w, e)) == NextTable(TableOf(w), w, e)
  {
    StepKeepsInv(w, e);
    match e
    case Open(_, _, _, _, _) => OpenFollowsTable(w, e);
    case KillSession(h) => KillFollowsTable(w, h);
    case KillById(id) =>
      if id in w.table {
        assert w.heap[w.table[id]].id == id;
        KillFollowsTable(w, w.table[id]);
      }
    case Reap(now, listening) => ReapFollowsTable(w, now, listening);
    case ReaderExit(h) => ExitFollowsTable(w, h);
  }

  lemma OpenFollowsTable(w: World, e: Event)
    requires Inv(w) && e.Open? && Enabled(w, e)
    ensures Inv(Next(w, e)) && TableOf(Next(w, e)) == TableOf(w)[e.id := Opened(e.id, e.vm, e.now, e.start)]
  {
    OpenKeepsInv(w, e);
  }

  lemma ExitFollowsTable(w: World, h: nat)
    requires Inv(w) && h in w.heap
    ensures Inv(AfterExit(w, h))
    ensures TableOf(AfterExit(w, h)) ==
            if Registered(w, h) then TableOf(w)[w.heap[h].id := w.heap[h].(closed := true)] else TableOf(w)
  {
    ExitKeepsInv(w, h);
    forall id | id in w.table && id != w.heap[h].id
      ensures w.table[id] != h
    {
      assert w.heap[w.table[id]].id == id;
    }
  }

  lemma KillFollowsTable(w: World, h: nat)
    requires Inv(w) && h in w.heap
    ensures var w' := AfterKill(w, w.heap[h].id, h);
            (forall k :: k in w'.table ==> w'.table[k] in w'.heap) && TableOf(w') == TableOf(w) - {w.heap[h].id}
  {
  }

  lemma ReapFollowsTable(w: World, now: int, listening: set<string>)
    requires Inv(w)
    ensures var w' := AfterReaping(w, now, listening);
            && (forall id :: id in w'.table ==> w'.table[id] in w'.heap)
            && TableOf(w') == WithoutIdle(TableOf(w), now, listening)
  {
    forall id | id in w.table
      ensures Reaped(w, w.table[id], now, listening) <==> Idle(w.heap[w.table[id]], now, listening)
    {
      assert Registered(w, w.table[id]);
    }
  }

  function ForVm(w: World, vm: string): map<string, nat>
    requires forall id :: id in w.table ==> w.table[id] in w.heap
  {
    map id | id in w.table && w.heap[w.table[id]].vm == vm :: w.table[id]
  }

  /** The listing of a VM has exactly its registered sessions, under their own ids; none that is open is missing. */
  lemma ForVmListsEveryOpenSession(events: seq<Event>, vm: string, h: nat)
    requires h in Execute(Empty, events).heap
    ensures var w := Execute(Empty, events);
            && (forall id :: id in w.table ==> w.table[id] in w.heap)
            && (Registered(w, h) && w.heap[h].vm == vm <==>
                  w.heap[h].id in ForVm(w, vm) && ForVm(w, vm)[w.heap[h].id] == h)
            && (h in ForVm(w, vm).Values ==> w.heap[h].vm == vm && Registered(w, h))
            && (!w.heap[h].closed ==> Registered(w, h))
  {
    InvHolds(events);
  }

  // ------------------------------------------------------------ the objects

  class Session {
    const id: string
    const vm: string
    const createdAt: int
    var spawned: bool
    var closed: bool
    var masterOpen: bool
    var slaveOpen: bool
    var terms: nat

    constructor (id: string, vm: string, now: int)
      ensures View() == Sess(id, vm, now, false, false, false, false, 0)
    {
      this.id, this.vm, this.createdAt := id, vm, now;
      spawned, closed, masterOpen, slaveOpen, terms := false, false, false, false, 0;
    }

    function View(): Sess
      reads this
    {
      Sess(id, vm, createdAt, spawned, closed, masterOpen, slaveOpen, terms)
    }

    /** `outcome` is what the name check and the operating system answer. */
    method Launch(outcome: Start)
      requires !spawned && !closed && !masterOpen && !slaveOpen && terms == 0
      modifies this
      ensures View() == Opened(id, vm, createdAt, outcome)
    {
      if outcome.NameRejected? {
        return;
      }
      masterOpen, slaveOpen := true, true;
      if outcome.SpawnFailed? {
        return;
      }
      spawned := true;
      slaveOpen := false;
    }
  }

  /** What a kill by id comes back with. */
  datatype Outcome = NotFound | ThreadError

  class Registry {
    var sessions: map<string, Session>
    var owner: int  // the thread that holds the lock, or -1

    ghost predicate Valid()
      reads this
    {
      forall id :: id in sessions ==> sessions[id].id == id
    }

    /** The registered sessions by id. */
    ghost function Table(): map<string, Sess>
      reads this, sessions.Values
    {
      map id | id in sessions :: sessions[id].View()
    }

    constructor ()
      ensures Valid() && sessions == map[] && owner == -1
    {
      sessions := map[];
      owner := -1;
    }

    /** The session is registered before it is started; a failing start leaves it there. */
    method Open(id: string, vm: string, now: int, outcome: Start) returns (s: Session)
      requires Valid() && owner == -1
      modifies this
      ensures Valid() && owner == -1
      ensures fresh(s) && sessions == old(sessions)[id := s]
      ensures s.id == id && s.vm == vm && s.createdAt == now && !s.closed && s.terms == 0
      ensures s.spawned <==> outcome == Started
      ensures s.masterOpen <==> outcome != NameRejected
      ensures s.slaveOpen <==> outcome == SpawnFailed
      ensures s.View() == Opened(id, vm, now, outcome)
      ensures Table() == old(Table())[id := Opened(id, vm, now, outcome)]
    {
      s := new Session(id, vm, now);
      sessions := sessions[id := s];
      s.Launch(outcome);
    }

    method ForVm(vm: string) returns (found: map<string, Session>)
      requires Valid()
      ensures forall id :: id in found <==> id in sessions && sessions[id].vm == vm
      ensures forall id :: id in found ==> found[id] == sessions[id]
    {
      found := map id | id in sessions && sessions[id].vm == vm :: sessions[id];
    }

    /**
     * The lock is not re-entrant: taking it again in the clean-up raises, and then the last
     * step, the removal from the table, is not reached.
     */
    method Kill(s: Session, me: int) returns (raised: bool)
      requires Valid() && me >= 0 && (owner == -1 || owner == me)
      modifies this`sessions, s
      ensures Valid()
      ensures raised <==> owner == me
      ensures s.View() == Killed(old(s.View()))
      ensures sessions == if raised then old(sessions) else old(sessions) - {s.id}
      ensures !raised ==> Table() == old(Table()) - {s.id}
    {
      if !s.closed {
        s.closed := true;
        if s.spawned {
          s.terms := s.terms + 1;
        }
      }
      s.masterOpen := false;
      s.slaveOpen := false;
      raised := owner == me;
      if !raised {
        sessions := sessions - {s.id};
      }
    }

    /**
     * Killing by id holds the lock around the kill, so it raises exactly when the id is
     * registered. All its effects are in place by then, and the lock is free again.
     */
    method KillById(id: string, me: int) returns (outcome: Outcome)
      requires Valid() && me >= 0 && owner == -1
      modifies this, if id in sessions then {sessions[id]} else {}
      ensures Valid() && owner == -1
      ensures outcome.ThreadError? <==> id in old(sessions)
      ensures sessions == old(sessions) - {id}
      ensures id in old(sessions) ==>
                old(sessions)[id].View() == Killed(old(sessions[id].View()))
      ensures Table() == old(Table()) - {id}
    {
      owner := me;
      outcome := NotFound;
      if id in sessions {
        var s := sessions[id];
        sessions := sessions - {id};
        var raised := Kill(s, me);
        outcome := if raised then ThreadError else NotFound;
      }
      owner := -1;
    }

    /** Some of the sessions that were in the table have been reaped, and nothing else has changed. */
    ghost predicate Reaping(table: map<string, Session>, before: map<string, Sess>, reaped: seq<string>)
      reads this, table.Values
    {
      && Valid() && owner == -1
      && sessions == table - Ids(reaped)
      && table.Keys == before.Keys
      && forall id :: id in table ==> table[id].id == id && table[id].View() == AfterReap(before[id], id in reaped)
    }

    /** One turn of the reaper: a session that is old and not listened to is killed. */
    method Consider(id: string, now: int, listening: set<string>, me: int, reaped: seq<string>,
                    ghost table: map<string, Session>, ghost before: map<string, Sess>)
      returns (r: seq<string>)
      requires Reaping(table, before, reaped) && me >= 0 && id in table && id !in reaped
      modifies this`sessions, table[id]
      ensures Reaping(table, before, r)
      ensures r == reaped + if Idle(before[id], now, listening) then [id] else []
    {
      var s := sessions[id];
      r := reaped;
      if s.createdAt <= now - IDLE_TTL && id !in listening {
        var raised := Kill(s, me);
        IdsStep(reaped, id);
        r := reaped + [id];
      }
    }

    /** The walk over the table in its own order, killing while it iterates. */
    method WalkTable(now: int, listening: set<string>, order: seq<string>, me: int,
                     ghost table: map<string, Session>, ghost before: map<string, Sess>)
      returns (reaped: seq<string>)
      requires Reaping(table, before, []) && me >= 0
      requires (forall id :: id in order ==> id in table) && Distinct(order)
      modifies this`sessions, table.Values
      ensures Reaping(table, before, reaped)
      ensures reaped == IdleAmong(before, order, now, listening)
    {
      reaped := [];
      var i := 0;
      while i < |order|
        invariant 0 <= i <= |order|
        invariant Reaping(table, before, reaped)
        invariant reaped == IdleAmong(before, order[..i], now, listening)
      {
        IdleAmongStep(before, order, i, now, listening);
        reaped := Consider(order[i], now, listening, me, reaped, table, before);
        i := i + 1;
      }
      assert order[..i] == order;
    }

    /** The reaper ends exactly the idle sessions, and leaves the objects of the others alone. */
    method ReapIdle(now: int, listening: set<string>, order: seq<string>, me: int)
      returns (reaped: seq<string>)
      requires Valid() && me >= 0 && owner == -1
      requires forall id :: id in order <==> id in sessions
      requires Distinct(order)
      modifies this`sessions, sessions.Values
      ensures Valid()
      ensures forall id :: id in reaped <==>
                id in old(sessions) && old(sessions[id].createdAt) + 1800 <= now && id !in listening
      ensures sessions == old(sessions) - Ids(reaped)
      ensures forall id :: id in old(sessions) ==>
                old(sessions)[id].View() == AfterReap(old(sessions[id].View()), id in reaped)
      ensures Table() == WithoutIdle(old(Table()), now, listening)
    {
      reaped := WalkTable(now, listening, order, me, sessions, Table());
      IdleAmongMeans(old(Table()), order, now, listening);
      WalkLeavesOthers(old(sessions), old(Table()), reaped, now, listening);
    }

    lemma WalkLeavesOthers(table: map<string, Session>, before: map<string, Sess>, reaped: seq<string>,
                           now: int, listening: set<string>)
      requires Reaping(table, before, reaped)
      requires forall id :: id in reaped <==> id in before && Idle(before[id], now, listening)
      ensures Table() == WithoutIdle(before, now, listening)
    {
      forall id
        ensures id in sessions <==> id in before && !Idle(before[id], now, listening)
        ensures id in sessions ==> sessions[id].View() == before[id]
      {
        assert id in Ids(reaped) <==> id in reaped;
        if id in sessions {
          assert sessions[id] == table[id];
        }
      }
    }
  }

  predicate Distinct(ids: seq<string>) {
    forall i, j :: 0 <= i < j < |ids| ==> ids[i] != ids[j]
  }

  /** The idle ones of some sessions, in order. */
  function IdleAmong(table: map<string, Sess>, ids: seq<string>, now: int, listening: set<string>): seq<string> {
    if ids == [] then []
    else
      var id := ids[|ids| - 1];
      IdleAmong(table, ids[..|ids| - 1], now, listening) +
      if id in table && Idle(table[id], now, listening) then [id] else []
  }

  lemma {:induction false} IdleAmongMeans(table: map<string, Sess>, ids: seq<string>, now: int, listening: set<string>)
    ensures forall id :: id in IdleAmong(table, ids, now, listening) <==>
              id in ids && id in table && Idle(table[id], now, listening)
  {
    if ids != [] {
      IdleAmongMeans(table, ids[..|ids| - 1], now, listening);
      assert ids == ids[..|ids| - 1] + [ids[|ids| - 1]];
    }
  }

  /** The next session of the order is not among those reaped yet, and is reaped exactly if it is idle. */
  lemma IdleAmongStep(table: map<string, Sess>, order: seq<string>, i: nat, now: int, listening: set<string>)
    requires i < |order| && Distinct(order) && order[i] in table
    ensures order[i] !in IdleAmong(table, order[..i], now, listening)
    ensures IdleAmong(table, order[..i + 1], now, listening) ==
            IdleAmong(table, order[..i], now, listening) + if Idle(table[order[i]], now, listening) then [order[i]] else []
  {
    IdleAmongMeans(table, order[..i], now, listening);
    assert order[..i + 1][..i] == order[..i];
  }
}
