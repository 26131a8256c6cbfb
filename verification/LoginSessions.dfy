/**
 * Login sessions: issuing a token, looking it up with lazy reaping, logging out, and the sweeper.
 * Raw tokens are fresh and the digest has no collisions.
 */
module LoginSessions {
  import opened Wrappers
  import Text

  const TTL: int := 24 * 60 * 60

  /** What is stored of a raw token; distinct tokens have distinct digests. */
  datatype Digest = Sha256(raw: string)

  datatype Op = Issue(token: string) | Find(token: string) | Logout(token: string) | Sweep

  /** An operation and the clock when it runs. */
  datatype Timed = Timed(now: int, op: Op)

  type Table = map<Digest, int>

  /** The rows carry their expiry; a lookup accepts a row that expires in the future. */
  predicate Live(rows: Table, token: string, now: int) {
    !Text.Blank(token) && Sha256(token) in rows && rows[Sha256(token)] > now
  }

  function Issued(rows: Table, token: string, now: int): Table {
    rows[Sha256(token) := now + TTL]
  }

  /** A lookup of an expired row deletes it. */
  function AfterFind(rows: Table, token: string, now: int): Table {
    if Text.Blank(token) || Live(rows, token, now) then rows else rows - {Sha256(token)}
  }

  /** A logout destroys the row that the request's own lookup found. */
  function AfterLogout(rows: Table, token: string, now: int): Table {
    if Text.Blank(token) then rows else rows - {Sha256(token)}
  }

  /** The sweeper deletes strictly past expiries; one that expires right now is left. */
  function Swept(rows: Table, now: int): Table {
    map d | d in rows && !(rows[d] < now) :: rows[d]
  }

  // -------------------------------------------------------------- runs

  function Next(rows: Table, e: Timed): Table {
    match e.op
    case Issue(token) => Issued(rows, token, e.now)
    case Find(token) => AfterFind(rows, token, e.now)
    case Logout(token) => AfterLogout(rows, token, e.now)
    case Sweep => Swept(rows, e.now)
  }

  /** The same operations on a table that is never swept or reaped. */
  function NextKeeping(rows: Table, e: Timed): Table {
    match e.op
    case Issue(token) => Issued(rows, token, e.now)
    case Logout(token) => if Live(rows, token, e.now) then rows - {Sha256(token)} else rows
    case _ => rows
  }

  function Run(trace: seq<Timed>): Table {
    if trace == [] then map[] else Next(Run(trace[..|trace| - 1]), trace[|trace| - 1])
  }

  function RunKeeping(trace: seq<Timed>): Table {
    if trace == [] then map[] else NextKeeping(RunKeeping(trace[..|trace| - 1]), trace[|trace| - 1])
  }

  predicate Issues(e: Timed, token: string) {
    e.op == Issue(token)
  }

  /** The clock never goes back, and every issued token is new and not blank. */
  predicate Proper(trace: seq<Timed>) {
    && (forall i, j :: 0 <= i < j < |trace| ==> trace[i].now <= trace[j].now)
    && (forall i :: 0 <= i < |trace| && trace[i].op.Issue? ==> !Text.Blank(trace[i].op.token))
    && (forall i, j :: 0 <= i < j < |trace| && trace[i].op.Issue? && trace[j].op.Issue? ==>
          trace[i].op.token != trace[j].op.token)
  }

  /** Only expired rows are missing from the table that is swept and reaped. */
  predicate MissesOnlyExpired(rows: Table, kept: Table, now: int) {
    && (forall d :: d in rows ==> d in kept && kept[d] == rows[d])
    && (forall d :: d in kept && d !in rows ==> kept[d] <= now)
  }

  /** A sweep takes every row that expired before now, and no other. */
  lemma SweepTakesExactlyExpired(trace: seq<Timed>, now: int, d: Digest)
    ensures var rows, swept := Run(trace), Run(trace + [Timed(now, Sweep)]);
            && (d in swept <==> d in rows && now <= rows[d])
            && (d in swept ==> swept[d] == rows[d])
  {
    assert (trace + [Timed(now, Sweep)])[..|trace|] == trace;
  }

  lemma StepMissesOnlyExpired(rows: Table, kept: Table, before: int, e: Timed)
    requires MissesOnlyExpired(rows, kept, before) && before <= e.now
    requires e.op.Issue? ==> Sha256(e.op.token) !in kept
    ensures MissesOnlyExpired(Next(rows, e), NextKeeping(kept, e), e.now)
  {
  }

  lemma {:induction false} NotIssuedNotKept(trace: seq<Timed>, token: string)
    requires forall i :: 0 <= i < |trace| ==> !Issues(trace[i], token)
    ensures Sha256(token) !in RunKeeping(trace)
  {
    if trace != [] {
      NotIssuedNotKept(trace[..|trace| - 1], token);
      assert !Issues(trace[|trace| - 1], token);
    }
  }

  lemma {:induction false} RunMissesOnlyExpired(trace: seq<Timed>)
    requires Proper(trace) && trace != []
    ensures MissesOnlyExpired(Run(trace), RunKeeping(trace), trace[|trace| - 1].now)
  {
    var rest, e := trace[..|trace| - 1], trace[|trace| - 1];
    if e.op.Issue? {
      NotIssuedNotKept(rest, e.op.token);
    }
    if rest == [] {
      StepMissesOnlyExpired(map[], map[], e.now, e);
    } else {
      RunMissesOnlyExpired(rest);
      StepMissesOnlyExpired(Run(rest), RunKeeping(rest), rest[|rest| - 1].now, e);
    }
  }

  /**
   * Sweeping and lazy reaping cannot be observed: after any proper trace a lookup at any later
   * time gives the same answer, and the same row, as on a table that only issues and logs out.
   */
  lemma SweepingIsUnobservable(trace: seq<Timed>, token: string, now: int)
    requires Proper(trace) && (trace != [] ==> trace[|trace| - 1].now <= now)
    ensures Live(Run(trace), token, now) <==> Live(RunKeeping(trace), token, now)
    ensures Live(Run(trace), token, now) ==>
              Run(trace)[Sha256(token)] == RunKeeping(trace)[Sha256(token)]
  {
    if trace != [] {
      RunMissesOnlyExpired(trace);
    }
  }

  // ------------------------------------------------ when a token is accepted

  /** Issued at `i`, and not logged out since. */
  predicate StandsSince(trace: seq<Timed>, token: string, i: nat) {
    && i < |trace|
    && Issues(trace[i], token)
    && forall j :: i < j < |trace| ==> trace[j].op != Logout(token)
  }

  /** The row of a token in the kept table: there with the expiry of its issue, or logged out. */
  lemma {:induction false} KeptRow(trace: seq<Timed>, token: string, now: int)
    requires Proper(trace) && !Text.Blank(token) && (trace != [] ==> trace[|trace| - 1].now <= now)
    ensures Live(RunKeeping(trace), token, now) <==>
            exists i: nat :: StandsSince(trace, token, i) && now < trace[i].now + TTL
  {
    if trace != [] {
      var rest, e := trace[..|trace| - 1], trace[|trace| - 1];
      KeptRow(rest, token, now);
      KeptRow(rest, token, e.now);
      StandsStep(trace, token, now);
    }
  }

  lemma StandsStep(trace: seq<Timed>, token: string, now: int)
    requires Proper(trace) && trace != [] && trace[|trace| - 1].now <= now
    ensures var rest, e := trace[..|trace| - 1], trace[|trace| - 1];
            (exists i: nat :: StandsSince(trace, token, i) && now < trace[i].now + TTL) <==>
            || (Issues(e, token) && now < e.now + TTL)
            || (e.op != Logout(token) && exists i: nat :: StandsSince(rest, token, i) && now < rest[i].now + TTL)
  {
    var rest, e := trace[..|trace| - 1], trace[|trace| - 1];
    forall i: nat | i < |rest|
      ensures StandsSince(trace, token, i) <==> e.op != Logout(token) && StandsSince(rest, token, i)
    {
    }
    if Issues(e, token) {
      assert StandsSince(trace, token, |rest|);
    }
  }

  /**
   * A token is accepted exactly while unexpired and not logged out: it was issued less than the
   * time to live ago, with no logout in between.
   */
  lemma AcceptedIff(trace: seq<Timed>, token: string, now: int)
    requires Proper(trace) && (trace != [] ==> trace[|trace| - 1].now <= now)
    ensures Live(Run(trace), token, now) <==>
            !Text.Blank(token) && exists i: nat :: StandsSince(trace, token, i) && now < trace[i].now + 86400
  {
    SweepingIsUnobservable(trace, token, now);
    if !Text.Blank(token) {
      KeptRow(trace, token, now);
    }
  }

  // ------------------------------------------------------------ the table itself

  class Store {
    var rows: Table

    constructor ()
      ensures rows == Run([])
    {
      rows := map[];
    }

    /** `raw` comes from the random source. */
    method IssueToken(raw: string, now: int) returns (token: string)
      modifies this
      ensures token == raw && rows == Next(old(rows), Timed(now, Issue(raw)))
      ensures rows == old(rows)[Sha256(raw) := now + 86400]
    {
      rows := rows[Sha256(raw) := now + TTL];
      token := raw;
    }

    method FindValid(token: string, now: int) returns (expiry: Option<int>)
      modifies this
      ensures rows == Next(old(rows), Timed(now, Find(token)))
      ensures expiry.Some? <==> Live(old(rows), token, now)
      ensures expiry.Some? ==> expiry.value == old(rows)[Sha256(token)]
      ensures rows == if Sha256(token) in old(rows) && old(rows)[Sha256(token)] <= now && !Text.Blank(token)
                      then old(rows) - {Sha256(token)} else old(rows)
    {
      if Text.Blank(token) {
        return None;
      }
      var digest := Sha256(token);
      if digest !in rows {
        assert rows - {digest} == rows;
        return None;
      }
      if !(rows[digest] > now) {
        rows := rows - {digest};
        return None;
      }
      expiry := Some(rows[digest]);
    }

    method DestroySession(token: string, now: int)
      modifies this
      ensures rows == Next(old(rows), Timed(now, Logout(token)))
      ensures rows == if Text.Blank(token) then old(rows) else old(rows) - {Sha256(token)}
    {
      var found := FindValid(token, now);
      if found.Some? {
        rows := rows - {Sha256(token)};
      }
    }

    method SweepExpired(now: int) returns (deleted: nat)
      modifies this
      ensures rows == Next(old(rows), Timed(now, Sweep))
      ensures forall d :: d in rows <==> d in old(rows) && now <= old(rows)[d]
      ensures forall d :: d in rows ==> rows[d] == old(rows)[d]
      ensures deleted == |old(rows)| - |rows|
    {
      var expired := set d | d in rows && rows[d] < now;
      deleted := |expired|;
      RemovalCounts(rows, expired);
      rows := rows - expired;
    }
  }

  lemma RemovalCounts(rows: Table, gone: set<Digest>)
    requires gone <= rows.Keys
    ensures |rows - gone| + |gone| == |rows|
  {
    assert (rows - gone).Keys == rows.Keys - gone;
    assert rows.Keys == (rows - gone).Keys + gone;
  }
}
