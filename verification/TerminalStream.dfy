/**
 * The reconnect protocol: one reader thread and any number of browser tabs, as interleaved steps.
 *
 * The reader appends a chunk to the scrollback, trims it, and only then broadcasts it. A tab
 * subscribes to the broadcast stream, reads the scrollback, and transmits what it read; the two
 * sides of each tab are joined by a first-in first-out wire. The scrollback is read without the
 * lock that append and trim hold, so a tab may see it between the two.
 */
module TerminalStream {
  import opened ByteStreams
  import TerminalSession

  const CAP := TerminalSession.SCROLLBACK_CAP

  datatype Message = Scrollback(bytes: Bytes) | Output(bytes: Bytes)

  /** The reader thread: `Trimming` and `Pending` hold a chunk that is not broadcast yet. */
  datatype Reader = Idle | Trimming(chunk: Bytes) | Pending(chunk: Bytes) | Stopped

  /**
   * Where a tab's subscription stands. `covered` chunks had been appended, and `seen` broadcast,
   * when the snapshot was read; `sent` had been broadcast when it was transmitted.
   */
  datatype Phase =
    | Off
    | Streaming
    | Holding(snapshot: Bytes, covered: nat, seen: nat)
    | Sent(snapshot: Bytes, covered: nat, seen: nat, sent: nat)

  datatype Tab = Tab(screen: Bytes, wire: seq<Message>, phase: Phase)

  datatype World = World(
    scrollback: Bytes,
    appended: seq<Bytes>,
    broadcast: seq<Bytes>,
    reader: Reader,
    tabs: map<int, Tab>)

  /** `Kill` is the thread being killed, or a crash: it stops without a notice, wherever it is. */
  datatype Event =
    | Append(chunk: Bytes)
    | Trim
    | Broadcast
    | Exit(notice: Bytes)
    | Kill
    | StreamFrom(tab: int)
    | ReadSnapshot(tab: int)
    | Transmit(tab: int)
    | Arrive(tab: int)
    | Disconnect(tab: int, text: Bytes)

  const Init := World([], [], [], Idle, map[])

  /** The client: a scrollback message resets the terminal, an output message adds to it. */
  function Handle(screen: Bytes, m: Message): Bytes {
    match m
    case Scrollback(bytes) => bytes
    case Output(bytes) => screen + bytes
  }

  /** The client handles the first message on the wire. */
  function Arrival(t: Tab): Tab
    requires t.wire != []
  {
    t.(screen := Handle(t.screen, t.wire[0]), wire := t.wire[1..])
  }

  /** A broadcast reaches every subscription whose stream is open. */
  function Push(t: Tab, chunk: Bytes): Tab {
    if t.phase.Off? then t else t.(wire := t.wire + [Output(chunk)])
  }

  function BroadcastTo(w: World, chunk: Bytes, reader: Reader): World {
    w.(broadcast := w.broadcast + [chunk],
       reader := reader,
       tabs := map i | i in w.tabs :: Push(w.tabs[i], chunk))
  }

  /** A browser tab that has never subscribed has an empty screen. */
  function TabOf(w: World, i: int): Tab {
    if i in w.tabs then w.tabs[i] else Tab([], [], Off)
  }

  predicate Enabled(w: World, e: Event) {
    match e
    case Append(_) => w.reader.Idle?
    case Trim => w.reader.Trimming?
    case Broadcast => w.reader.Pending?
    case Exit(_) => w.reader.Idle?
    case Kill => !w.reader.Stopped?
    case StreamFrom(i) => TabOf(w, i).phase.Off?
    case ReadSnapshot(i) => TabOf(w, i).phase.Streaming?
    case Transmit(i) => TabOf(w, i).phase.Holding?
    case Arrive(i) => TabOf(w, i).wire != []
    case Disconnect(i, _) => !TabOf(w, i).phase.Off?
  }

  /** The tab after one of its own steps; the others leave it alone. */
  function TabStep(w: World, t: Tab, e: Event): Tab
    requires e.ReadSnapshot? ==> t.phase.Streaming?
    requires e.Transmit? ==> t.phase.Holding?
    requires e.Arrive? ==> t.wire != []
  {
    match e
    case StreamFrom(_) => t.(phase := Streaming)
    case ReadSnapshot(_) => t.(phase := Holding(w.scrollback, |w.appended|, |w.broadcast|))
    case Transmit(_) =>
      t.(phase := Sent(t.phase.snapshot, t.phase.covered, t.phase.seen, |w.broadcast|),
         wire := t.wire + [Scrollback(t.phase.snapshot)])
    case Arrive(_) => Arrival(t)
    case Disconnect(_, text) => Tab(t.screen + text, [], Off)
    case _ => t
  }

  /** One step. An event that is not enabled changes nothing, so every list of events is a run. */
  function Next(w: World, e: Event): World {
    if !Enabled(w, e) then w else
    match e
    case Append(chunk) =>
      w.(scrollback := w.scrollback + chunk, appended := w.appended + [chunk], reader := Trimming(chunk))
    case Trim => w.(scrollback := Keep(w.scrollback, CAP), reader := Pending(w.reader.chunk))
    case Broadcast => BroadcastTo(w, w.reader.chunk, Idle)
    case Exit(notice) => BroadcastTo(w, notice, Stopped)
    case Kill => w.(reader := Stopped)
    case _ => w.(tabs := w.tabs[e.tab := TabStep(w, TabOf(w, e.tab), e)])
  }

  function Execute(events: seq<Event>): World {
    if events == [] then Init
    else Next(Execute(events[..|events| - 1]), events[|events| - 1])
  }

  // ---------------------------------------------------------------- invariants

  /** `s` ends the stream and is all of it, or at least the cap. */
  predicate Retains(s: Bytes, stream: Bytes) {
    IsTailOf(s, stream) && (|s| >= CAP || s == stream)
  }

  /** How the two logs stand to each other: a held chunk, a lost one, or a final notice. */
  predicate LogsOk(appended: seq<Bytes>, broadcast: seq<Bytes>, reader: Reader) {
    match reader
    case Idle => broadcast == appended
    case Trimming(c) => appended == broadcast + [c]
    case Pending(c) => appended == broadcast + [c]
    case Stopped =>
      || broadcast == appended
      || (|appended| == |broadcast| + 1 && appended[..|broadcast|] == broadcast)
      || (|broadcast| == |appended| + 1 && broadcast[..|appended|] == appended)
  }

  predicate SnapshotOk(appended: seq<Bytes>, count: nat, stopped: bool, snapshot: Bytes, covered: nat, seen: nat) {
    && covered <= |appended|
    && seen <= count
    && Retains(snapshot, Flatten(appended[..covered]))
    && covered <= seen + 1
    && (seen <= covered || (seen == covered + 1 == count && covered == |appended| && stopped))
  }

  /** The end of the wire carries exactly the latest `k` broadcasts. */
  predicate Carries(wire: seq<Message>, broadcast: seq<Bytes>, k: nat) {
    && k <= |wire|
    && k <= |broadcast|
    && forall i :: |wire| - k <= i < |wire| ==> wire[i] == Output(broadcast[|broadcast| - |wire| + i])
  }

  /** The tab's snapshot has been handled by the client. */
  predicate Arrived(t: Tab, count: nat)
    requires t.phase.Sent?
  {
    |t.wire| <= count - t.phase.sent
  }

  predicate StreamOk(broadcast: seq<Bytes>, t: Tab)
    requires t.phase.Sent?
  {
    var n, sent, k := |broadcast|, t.phase.sent, |t.wire|;
    && t.phase.seen <= sent <= n
    && if Arrived(t, n) then
         && Carries(t.wire, broadcast, k)
         && t.screen == t.phase.snapshot + Flatten(broadcast[sent..n - k])
       else
         && Carries(t.wire, broadcast, n - sent)
         && t.wire[k - (n - sent) - 1] == Scrollback(t.phase.snapshot)
  }

  predicate TabOk(appended: seq<Bytes>, broadcast: seq<Bytes>, stopped: bool, t: Tab) {
    match t.phase
    case Off => t.wire == []
    case Streaming => true
    case Holding(snapshot, covered, seen) =>
      SnapshotOk(appended, |broadcast|, stopped, snapshot, covered, seen)
    case Sent(snapshot, covered, seen, sent) =>
      && SnapshotOk(appended, |broadcast|, stopped, snapshot, covered, seen)
      && StreamOk(broadcast, t)
  }

  predicate TabsOk(appended: seq<Bytes>, broadcast: seq<Bytes>, stopped: bool, tabs: map<int, Tab>) {
    forall i :: i in tabs ==> TabOk(appended, broadcast, stopped, tabs[i])
  }

  ghost predicate Inv(w: World) {
    && LogsOk(w.appended, w.broadcast, w.reader)
    && Retains(w.scrollback, Flatten(w.appended))
    && TabsOk(w.appended, w.broadcast, w.reader.Stopped?, w.tabs)
  }

  // -------------------------------------------------------- every step keeps them

  lemma RetainsMore(s: Bytes, stream: Bytes, chunk: Bytes)
    requires Retains(s, stream)
    ensures Retains(s + chunk, stream + chunk)
  {
    assert (stream + chunk)[|stream| - |s|..] == stream[|stream| - |s|..] + chunk;
  }

  lemma KeepRetains(s: Bytes, stream: Bytes)
    requires Retains(s, stream)
    ensures Retains(Keep(s, CAP), stream)
  {
    if |s| > CAP {
      assert stream[|stream| - |s|..][|s| - CAP..] == stream[|stream| - CAP..];
    }
  }

  lemma AppendKeepsTab(appended: seq<Bytes>, broadcast: seq<Bytes>, chunk: Bytes, t: Tab)
    requires TabOk(appended, broadcast, false, t)
    ensures TabOk(appended + [chunk], broadcast, false, t)
  {
    if t.phase.Holding? || t.phase.Sent? {
      assert (appended + [chunk])[..t.phase.covered] == appended[..t.phase.covered];
    }
  }

  lemma PushKeepsStream(broadcast: seq<Bytes>, chunk: Bytes, t: Tab)
    requires t.phase.Sent? && StreamOk(broadcast, t)
    ensures StreamOk(broadcast + [chunk], t.(wire := t.wire + [Output(chunk)]))
  {
    var n, k, sent := |broadcast|, |t.wire|, t.phase.sent;
    var wire' := t.wire + [Output(chunk)];
    if k <= n - sent {
      assert (broadcast + [chunk])[sent..n - k] == broadcast[sent..n - k];
      assert Carries(wire', broadcast + [chunk], k + 1);
    } else {
      assert Carries(wire', broadcast + [chunk], n + 1 - sent);
      assert wire'[k - (n - sent) - 1] == t.wire[k - (n - sent) - 1];
    }
  }

  lemma PushKeepsTab(appended: seq<Bytes>, broadcast: seq<Bytes>, chunk: Bytes, stopped: bool, t: Tab)
    requires TabOk(appended, broadcast, false, t)
    ensures TabOk(appended, broadcast + [chunk], stopped, Push(t, chunk))
  {
    if t.phase.Sent? {
      PushKeepsStream(broadcast, chunk, t);
    }
  }

  /** One more live message on the screen. */
  lemma ShowsNext(broadcast: seq<Bytes>, snapshot: Bytes, sent: nat, m: nat)
    requires sent <= m < |broadcast|
    ensures (snapshot + Flatten(broadcast[sent..m])) + broadcast[m] == snapshot + Flatten(broadcast[sent..m + 1])
  {
    assert broadcast[sent..m + 1] == broadcast[sent..m] + [broadcast[m]];
    FlattenSnoc(broadcast[sent..m], broadcast[m]);
  }

  lemma LiveArrives(broadcast: seq<Bytes>, t: Tab)
    requires t.phase.Sent? && StreamOk(broadcast, t) && t.wire != [] && Arrived(t, |broadcast|)
    ensures StreamOk(broadcast, Arrival(t))
  {
    var n, k := |broadcast|, |t.wire|;
    assert t.wire[0] == Output(broadcast[n - k]);
    ShowsNext(broadcast, t.phase.snapshot, t.phase.sent, n - k);
  }

  lemma SnapshotArrives(broadcast: seq<Bytes>, t: Tab)
    requires t.phase.Sent? && StreamOk(broadcast, t) && |t.wire| == |broadcast| - t.phase.sent + 1
    ensures t.wire != [] && StreamOk(broadcast, Arrival(t))
  {
    assert t.wire[0] == Scrollback(t.phase.snapshot);
    assert broadcast[t.phase.sent..t.phase.sent] == [];
  }

  lemma EarlierArrives(broadcast: seq<Bytes>, t: Tab)
    requires t.phase.Sent? && StreamOk(broadcast, t) && |t.wire| > |broadcast| - t.phase.sent + 1
    ensures t.wire != [] && StreamOk(broadcast, Arrival(t))
  {
  }

  lemma ArriveKeepsStream(broadcast: seq<Bytes>, t: Tab)
    requires t.phase.Sent? && StreamOk(broadcast, t) && t.wire != []
    ensures StreamOk(broadcast, Arrival(t))
  {
    if Arrived(t, |broadcast|) {
      LiveArrives(broadcast, t);
    } else if |t.wire| == |broadcast| - t.phase.sent + 1 {
      SnapshotArrives(broadcast, t);
    } else {
      EarlierArrives(broadcast, t);
    }
  }

  lemma ReadKeepsTab(w: World, t: Tab, e: Event)
    requires LogsOk(w.appended, w.broadcast, w.reader) && Retains(w.scrollback, Flatten(w.appended))
    requires e.ReadSnapshot? && t.phase.Streaming?
    ensures TabOk(w.appended, w.broadcast, w.reader.Stopped?, TabStep(w, t, e))
  {
    assert w.appended[..|w.appended|] == w.appended;
  }

  lemma TransmitKeepsTab(w: World, t: Tab, e: Event)
    requires e.Transmit? && t.phase.Holding? && TabOk(w.appended, w.broadcast, w.reader.Stopped?, t)
    ensures TabOk(w.appended, w.broadcast, w.reader.Stopped?, TabStep(w, t, e))
  {
  }

  lemma ArriveKeepsTab(w: World, t: Tab, e: Event)
    requires e.Arrive? && t.wire != [] && TabOk(w.appended, w.broadcast, w.reader.Stopped?, t)
    ensures TabOk(w.appended, w.broadcast, w.reader.Stopped?, TabStep(w, t, e))
  {
    if t.phase.Sent? {
      ArriveKeepsStream(w.broadcast, t);
    }
  }

  lemma OtherKeepsTab(w: World, t: Tab, e: Event)
    requires e.StreamFrom? || e.Disconnect?
    ensures TabOk(w.appended, w.broadcast, w.reader.Stopped?, TabStep(w, t, e))
  {
  }

  predicate TailOk(scrollback: Bytes, appended: seq<Bytes>, reader: Reader) {
    match reader
    case Idle => scrollback == Keep(Flatten(appended), 65536)
    case Pending(_) => scrollback == Keep(Flatten(appended), 65536)
    case Trimming(c) =>
      && appended != [] && appended[|appended| - 1] == c
      && scrollback == Keep(Flatten(appended[..|appended| - 1]), 65536) + c
    case Stopped => true
  }

  lemma AppendTail(scrollback: Bytes, appended: seq<Bytes>, chunk: Bytes)
    requires TailOk(scrollback, appended, Idle)
    ensures TailOk(scrollback + chunk, appended + [chunk], Trimming(chunk))
  {
    assert (appended + [chunk])[..|appended|] == appended;
  }

  lemma TrimTail(scrollback: Bytes, appended: seq<Bytes>, chunk: Bytes)
    requires TailOk(scrollback, appended, Trimming(chunk))
    ensures TailOk(Keep(scrollback, CAP), appended, Pending(chunk))
  {
    TrimIsTail(appended, chunk);
  }

  lemma TailStep(w: World, e: Event)
    requires TailOk(w.scrollback, w.appended, w.reader)
    ensures TailOk(Next(w, e).scrollback, Next(w, e).appended, Next(w, e).reader)
  {
    if Enabled(w, e) {
      if e.Append? {
        AppendTail(w.scrollback, w.appended, e.chunk);
      } else if e.Trim? {
        TrimTail(w.scrollback, w.appended, w.reader.chunk);
      }
    }
  }

  /** The scrollback is the last 64 KiB of what was read, but for a chunk that is not trimmed yet. */
  lemma {:induction false} ScrollbackIsTail(events: seq<Event>)
    ensures TailOk(Execute(events).scrollback, Execute(events).appended, Execute(events).reader)
  {
    if events != [] {
      ScrollbackIsTail(events[..|events| - 1]);
      TailStep(Execute(events[..|events| - 1]), events[|events| - 1]);
    }
  }

  lemma TrimIsTail(appended: seq<Bytes>, chunk: Bytes)
    requires appended != [] && appended[|appended| - 1] == chunk
    ensures Keep(Keep(Flatten(appended[..|appended| - 1]), CAP) + chunk, CAP) == Keep(Flatten(appended), CAP)
  {
    KeepAbsorbs(Flatten(appended[..|appended| - 1]), chunk, CAP);
  }

  predicate IsTabEvent(e: Event) {
    e.StreamFrom? || e.ReadSnapshot? || e.Transmit? || e.Arrive? || e.Disconnect?
  }

  lemma TabStepKeeps(w: World, t: Tab, e: Event)
    requires LogsOk(w.appended, w.broadcast, w.reader) && Retains(w.scrollback, Flatten(w.appended))
    requires TabOk(w.appended, w.broadcast, w.reader.Stopped?, t) && IsTabEvent(e)
    requires e.ReadSnapshot? ==> t.phase.Streaming?
    requires e.Transmit? ==> t.phase.Holding?
    requires e.Arrive? ==> t.wire != []
    ensures TabOk(w.appended, w.broadcast, w.reader.Stopped?, TabStep(w, t, e))
  {
    if e.ReadSnapshot? {
      ReadKeepsTab(w, t, e);
    } else if e.Transmit? {
      TransmitKeepsTab(w, t, e);
    } else if e.Arrive? {
      ArriveKeepsTab(w, t, e);
    } else {
      OtherKeepsTab(w, t, e);
    }
  }

  lemma StopKeepsTab(appended: seq<Bytes>, broadcast: seq<Bytes>, stopped: bool, t: Tab)
    requires TabOk(appended, broadcast, stopped, t)
    ensures TabOk(appended, broadcast, true, t)
  {
  }

  /** The scrollback and the logs do not depend on the tabs. */
  lemma LogsStep(w: World, e: Event)
    requires LogsOk(w.appended, w.broadcast, w.reader)
    ensures LogsOk(Next(w, e).appended, Next(w, e).broadcast, Next(w, e).reader)
  {
  }

  lemma AppendRetains(scrollback: Bytes, appended: seq<Bytes>, chunk: Bytes)
    requires Retains(scrollback, Flatten(appended))
    ensures Retains(scrollback + chunk, Flatten(appended + [chunk]))
    ensures Retains(Keep(scrollback, CAP), Flatten(appended))
  {
    RetainsMore(scrollback, Flatten(appended), chunk);
    KeepRetains(scrollback, Flatten(appended));
    FlattenSnoc(appended, chunk);
  }

  /** Only the reader writes the scrollback. */
  lemma ScrollbackMoves(w: World, e: Event)
    ensures var w' := Next(w, e);
            || (w'.scrollback == w.scrollback && w'.appended == w.appended)
            || (e.Append? && w'.scrollback == w.scrollback + e.chunk && w'.appended == w.appended + [e.chunk])
            || (e.Trim? && w'.scrollback == Keep(w.scrollback, CAP) && w'.appended == w.appended)
  {
  }

  lemma ScrollbackStep(w: World, e: Event)
    requires Retains(w.scrollback, Flatten(w.appended))
    ensures Retains(Next(w, e).scrollback, Flatten(Next(w, e).appended))
  {
    ScrollbackMoves(w, e);
    AppendRetains(w.scrollback, w.appended, if e.Append? then e.chunk else []);
  }

  lemma AppendKeepsTabs(appended: seq<Bytes>, broadcast: seq<Bytes>, chunk: Bytes, tabs: map<int, Tab>)
    requires TabsOk(appended, broadcast, false, tabs)
    ensures TabsOk(appended + [chunk], broadcast, false, tabs)
  {
    forall i | i in tabs
      ensures TabOk(appended + [chunk], broadcast, false, tabs[i])
    {
      AppendKeepsTab(appended, broadcast, chunk, tabs[i]);
    }
  }

  lemma BroadcastKeepsTabs(w: World, chunk: Bytes, reader: Reader)
    requires TabsOk(w.appended, w.broadcast, false, w.tabs)
    ensures TabsOk(w.appended, w.broadcast + [chunk], reader.Stopped?, BroadcastTo(w, chunk, reader).tabs)
  {
    forall i | i in w.tabs
      ensures TabOk(w.appended, w.broadcast + [chunk], reader.Stopped?, Push(w.tabs[i], chunk))
    {
      PushKeepsTab(w.appended, w.broadcast, chunk, reader.Stopped?, w.tabs[i]);
    }
  }

  lemma StopKeepsTabs(appended: seq<Bytes>, broadcast: seq<Bytes>, stopped: bool, tabs: map<int, Tab>)
    requires TabsOk(appended, broadcast, stopped, tabs)
    ensures TabsOk(appended, broadcast, true, tabs)
  {
    forall i | i in tabs
      ensures TabOk(appended, broadcast, true, tabs[i])
    {
      StopKeepsTab(appended, broadcast, stopped, tabs[i]);
    }
  }

  lemma PutKeepsTabs(appended: seq<Bytes>, broadcast: seq<Bytes>, stopped: bool, tabs: map<int, Tab>, i: int, t: Tab)
    requires TabsOk(appended, broadcast, stopped, tabs) && TabOk(appended, broadcast, stopped, t)
    ensures TabsOk(appended, broadcast, stopped, tabs[i := t])
  {
  }

  lemma TabOfIsOk(w: World, i: int)
    requires TabsOk(w.appended, w.broadcast, w.reader.Stopped?, w.tabs)
    ensures TabOk(w.appended, w.broadcast, w.reader.Stopped?, TabOf(w, i))
  {
  }

  lemma OwnStepKeepsTabs(w: World, e: Event)
    requires Inv(w) && Enabled(w, e) && IsTabEvent(e)
    ensures TabsOk(w.appended, w.broadcast, w.reader.Stopped?,
                   w.tabs[e.tab := TabStep(w, TabOf(w, e.tab), e)])
  {
    TabOfIsOk(w, e.tab);
    TabStepKeeps(w, TabOf(w, e.tab), e);
    PutKeepsTabs(w.appended, w.broadcast, w.reader.Stopped?, w.tabs, e.tab, TabStep(w, TabOf(w, e.tab), e));
  }

  lemma TabsStep(w: World, e: Event)
    requires Inv(w)
    ensures TabsOk(Next(w, e).appended, Next(w, e).broadcast, Next(w, e).reader.Stopped?, Next(w, e).tabs)
  {
    if Enabled(w, e) {
      match e
      case Append(chunk) => AppendKeepsTabs(w.appended, w.broadcast, chunk, w.tabs);
      case Trim =>
      case Broadcast => BroadcastKeepsTabs(w, w.reader.chunk, Idle);
      case Exit(notice) => BroadcastKeepsTabs(w, notice, Stopped);
      case Kill => StopKeepsTabs(w.appended, w.broadcast, w.reader.Stopped?, w.tabs);
      case _ => OwnStepKeepsTabs(w, e);
    }
  }

  lemma StepKeepsInv(w: World, e: Event)
    requires Inv(w)
    ensures Inv(Next(w, e))
  {
    LogsStep(w, e);
    ScrollbackStep(w, e);
    TabsStep(w, e);
  }

  lemma {:induction false} InvHolds(events: seq<Event>)
    ensures Inv(Execute(events))
  {
    if events != [] {
      InvHolds(events[..|events| - 1]);
      StepKeepsInv(Execute(events[..|events| - 1]), events[|events| - 1]);
    }
  }

  // ----------------------------------------------- what the events alone determine

  /** The reader as an automaton over the events: it holds one chunk at a time, and stops for good. */
  function ReaderAfter(events: seq<Event>): Reader {
    if events == [] then Idle
    else
      var r, e := ReaderAfter(events[..|events| - 1]), events[|events| - 1];
      match r
      case Idle => if e.Append? then Trimming(e.chunk) else if e.Exit? || e.Kill? then Stopped else Idle
      case Trimming(chunk) => if e.Trim? then Pending(chunk) else if e.Kill? then Stopped else r
      case Pending(chunk) => if e.Broadcast? then Idle else if e.Kill? then Stopped else r
      case Stopped => Stopped
  }

  /** The chunks of the reads that the reader made, in order. */
  function ReadsOf(events: seq<Event>): seq<Bytes> {
    if events == [] then []
    else
      var rest, e := events[..|events| - 1], events[|events| - 1];
      ReadsOf(rest) + if e.Append? && ReaderAfter(rest).Idle? then [e.chunk] else []
  }

  /** What it sent: each chunk it held when it came to broadcast, and the notice of its exit. */
  function SentBy(events: seq<Event>): seq<Bytes> {
    if events == [] then []
    else
      var rest, e := events[..|events| - 1], events[|events| - 1];
      SentBy(rest) +
      if e.Broadcast? && ReaderAfter(rest).Pending? then [ReaderAfter(rest).chunk]
      else if e.Exit? && ReaderAfter(rest).Idle? then [e.notice]
      else []
  }

  /** Every read is appended and every broadcast sent, whatever the tabs do, and nothing else is. */
  lemma {:induction false} ReaderDoesAll(events: seq<Event>)
    ensures Execute(events).reader == ReaderAfter(events)
    ensures Execute(events).appended == ReadsOf(events)
    ensures Execute(events).broadcast == SentBy(events)
  {
    if events != [] {
      ReaderDoesAll(events[..|events| - 1]);
    }
  }

  function ReaderEvents(events: seq<Event>): seq<Event> {
    if events == [] then []
    else
      ReaderEvents(events[..|events| - 1]) +
      if IsTabEvent(events[|events| - 1]) then [] else [events[|events| - 1]]
  }

  /** The loop of the reader over some reads. */
  function Rounds(chunks: seq<Bytes>): seq<Event> {
    if chunks == [] then []
    else Rounds(chunks[..|chunks| - 1]) + [Append(chunks[|chunks| - 1])] + [Trim] + [Broadcast]
  }

  lemma ReaderSnoc(events: seq<Event>, e: Event)
    ensures ReaderAfter(events + [e]) ==
            match ReaderAfter(events)
            case Idle => if e.Append? then Trimming(e.chunk) else if e.Exit? || e.Kill? then Stopped else Idle
            case Trimming(chunk) => if e.Trim? then Pending(chunk) else if e.Kill? then Stopped else ReaderAfter(events)
            case Pending(chunk) => if e.Broadcast? then Idle else if e.Kill? then Stopped else ReaderAfter(events)
            case Stopped => Stopped
    ensures ReadsOf(events + [e]) ==
            ReadsOf(events) + if e.Append? && ReaderAfter(events).Idle? then [e.chunk] else []
    ensures SentBy(events + [e]) ==
            SentBy(events) + if e.Broadcast? && ReaderAfter(events).Pending? then [ReaderAfter(events).chunk]
                             else if e.Exit? && ReaderAfter(events).Idle? then [e.notice]
                             else []
  {
    assert (events + [e])[..|events|] == events;
  }

  lemma {:induction false} TabsDoNotDisturb(events: seq<Event>)
    ensures ReaderAfter(events) == ReaderAfter(ReaderEvents(events))
    ensures ReadsOf(events) == ReadsOf(ReaderEvents(events))
    ensures SentBy(events) == SentBy(ReaderEvents(events))
  {
    if events != [] {
      var rest, e := events[..|events| - 1], events[|events| - 1];
      TabsDoNotDisturb(rest);
      assert events == rest + [e];
      ReaderSnoc(rest, e);
      if IsTabEvent(e) {
        assert ReaderEvents(events) == ReaderEvents(rest);
      } else {
        ReaderSnoc(ReaderEvents(rest), e);
      }
    }
  }

  lemma RoundSends(r: seq<Event>, chunk: Bytes)
    requires ReaderAfter(r) == Idle
    ensures var r' := r + [Append(chunk)] + [Trim] + [Broadcast];
            && ReaderAfter(r') == Idle
            && ReadsOf(r') == ReadsOf(r) + [chunk] && SentBy(r') == SentBy(r) + [chunk]
  {
    ReaderSnoc(r, Append(chunk));
    ReaderSnoc(r + [Append(chunk)], Trim);
    ReaderSnoc(r + [Append(chunk)] + [Trim], Broadcast);
  }

  lemma {:induction false} RoundsSendAll(chunks: seq<Bytes>)
    ensures ReaderAfter(Rounds(chunks)) == Idle && ReadsOf(Rounds(chunks)) == chunks && SentBy(Rounds(chunks)) == chunks
  {
    if chunks != [] {
      var rest, chunk := chunks[..|chunks| - 1], chunks[|chunks| - 1];
      RoundsSendAll(rest);
      RoundSends(Rounds(rest), chunk);
      assert chunks == rest + [chunk];
    }
  }

  /**
   * However the tabs' steps fall between them, whole rounds of the reader append and broadcast
   * every chunk that was read, each once and in order.
   */
  lemma EveryReadIsBroadcast(events: seq<Event>, chunks: seq<Bytes>)
    requires ReaderEvents(events) == Rounds(chunks)
    ensures Execute(events).appended == chunks && Execute(events).broadcast == chunks
    ensures Execute(events).reader == Idle
  {
    ReaderDoesAll(events);
    TabsDoNotDisturb(events);
    RoundsSendAll(chunks);
  }

  /** What the reader sends goes once to every tab whose stream is open, and to no other. */
  lemma BroadcastReachesTabs(events: seq<Event>, e: Event, i: int)
    requires i in Execute(events).tabs && !IsTabEvent(e)
    ensures var t := Execute(events).tabs[i];
            var sent := SentBy(events + [e])[|SentBy(events)|..];
            && |sent| <= 1
            && i in Execute(events + [e]).tabs
            && Execute(events + [e]).tabs[i] ==
               if sent == [] || t.phase == Off then t else t.(wire := t.wire + [Output(sent[0])])
  {
    Then(events, e);
    ReaderSnoc(events, e);
    ReaderDoesAll(events);
    var w := Execute(events);
    if Enabled(w, e) && e.Broadcast? {
      assert Next(w, e).tabs[i] == Push(w.tabs[i], w.reader.chunk);
    } else if Enabled(w, e) && e.Exit? {
      assert Next(w, e).tabs[i] == Push(w.tabs[i], e.notice);
    }
  }

  /** A tab's steps, one after another as its phase allows, and what each does. */
  predicate TakesStep(w: World, t: Tab, t': Tab, e: Event) {
    match e
    case StreamFrom(_) =>
      if t.phase == Off then t' == Tab(t.screen, t.wire, Streaming) else t' == t
    case ReadSnapshot(_) =>
      if t.phase == Streaming then t' == Tab(t.screen, t.wire, Holding(w.scrollback, |w.appended|, |w.broadcast|))
      else t' == t
    case Transmit(_) =>
      if t.phase.Holding? then
        && t'.phase == Sent(t.phase.snapshot, t.phase.covered, t.phase.seen, |w.broadcast|)
        && t'.wire == t.wire + [Scrollback(t.phase.snapshot)] && t'.screen == t.screen
      else t' == t
    case Arrive(_) =>
      if t.wire != [] then
        && t'.wire == t.wire[1..] && t'.phase == t.phase
        && t'.screen == (if t.wire[0].Scrollback? then [] else t.screen) + t.wire[0].bytes
      else t' == t
    case Disconnect(_, text) => if t.phase != Off then t' == Tab(t.screen + text, [], Off) else t' == t
    case _ => true
  }

  lemma TabsTakeTheirSteps(events: seq<Event>, e: Event, k: int)
    requires IsTabEvent(e)
    ensures var w, w' := Execute(events), Execute(events + [e]);
            && TakesStep(w, TabOf(w, e.tab), TabOf(w', e.tab), e)
            && (k != e.tab ==> TabOf(w', k) == TabOf(w, k))
  {
    Then(events, e);
    var t := TabOf(Execute(events), e.tab);
    if e.Arrive? && t.wire != [] && t.wire[0].Scrollback? {
      var none: Bytes := [];
      assert none + t.wire[0].bytes == t.wire[0].bytes;
    }
  }

  // ---------------------------------------------------------------- main results

  /**
   * The screen is the snapshot as it was read, followed by every broadcast since the transmit, and
   * the wire holds the rest of them in order; the snapshot is the end of what had been appended
   * when it was read.
   */
  predicate SnapshotThenLive(w: World, t: Tab)
    requires t.phase.Sent?
  {
    var p, n, k := t.phase, |w.broadcast|, |t.wire|;
    && p.covered <= |w.appended|
    && Retains(p.snapshot, Flatten(w.appended[..p.covered]))
    && p.sent <= n - k
    && t.screen == p.snapshot + Flatten(w.broadcast[p.sent..n - k])
    && forall i :: 0 <= i < k ==> t.wire[i] == Output(w.broadcast[n - k + i])
  }

  lemma ArrivedMeans(w: World, t: Tab)
    requires t.phase.Sent? && TabOk(w.appended, w.broadcast, w.reader.Stopped?, t)
    requires Arrived(t, |w.broadcast|)
    ensures SnapshotThenLive(w, t)
  {
    var n, k := |w.broadcast|, |t.wire|;
    assert StreamOk(w.broadcast, t);
    assert Carries(t.wire, w.broadcast, k);
  }

  /** Reconnecting, for every interleaving: so it is once the snapshot has arrived. */
  lemma Reconnect(events: seq<Event>, i: int)
    requires i in Execute(events).tabs && Execute(events).tabs[i].phase.Sent?
    requires Arrived(Execute(events).tabs[i], |Execute(events).broadcast|)
    ensures SnapshotThenLive(Execute(events), Execute(events).tabs[i])
  {
    InvHolds(events);
    ArrivedMeans(Execute(events), Execute(events).tabs[i]);
  }

  /**
   * Chunk `k` is lost when it was broadcast before the transmit and appended after the read, and
   * shown twice when it was appended before the read and broadcast after the transmit. A lost
   * chunk was broadcast between the read and the transmit, or is the final notice, which never
   * enters the scrollback; and at most one chunk is shown twice.
   */
  lemma LossAndRepetition(events: seq<Event>, i: int, k: nat)
    requires i in Execute(events).tabs && Execute(events).tabs[i].phase.Sent?
    ensures var w := Execute(events);
            var p := w.tabs[i].phase;
            && (p.covered <= k < p.sent ==>
                  p.seen <= k || (k == |w.appended| == |w.broadcast| - 1 && w.reader.Stopped?))
            && (p.sent <= k < p.covered ==> k == p.sent == p.seen)
  {
    InvHolds(events);
    var w := Execute(events);
    assert TabOk(w.appended, w.broadcast, w.reader.Stopped?, w.tabs[i]);
  }

  /** No read was empty, nor was the notice. */
  predicate NonEmpty(chunks: seq<Bytes>) {
    forall k :: 0 <= k < |chunks| ==> chunks[k] != []
  }

  lemma {:induction false} FlattenGrows(chunks: seq<Bytes>)
    requires NonEmpty(chunks)
    ensures |chunks| <= |Flatten(chunks)|
  {
    if chunks != [] {
      FlattenGrows(chunks[..|chunks| - 1]);
    }
  }

  lemma FlattenSplit(chunks: seq<Bytes>, m: nat)
    requires m <= |chunks|
    ensures Flatten(chunks) == Flatten(chunks[..m]) + Flatten(chunks[m..])
  {
    assert chunks == chunks[..m] + chunks[m..];
    FlattenAppend(chunks[..m], chunks[m..]);
  }

  /** What the client shows, for logs that agree on their common part. */
  lemma JoinedLength(appended: seq<Bytes>, broadcast: seq<Bytes>, covered: nat, sent: nat)
    requires covered <= |appended| && sent <= |broadcast|
    requires forall k :: 0 <= k < |appended| && k < |broadcast| ==> appended[k] == broadcast[k]
    requires NonEmpty(appended) && NonEmpty(broadcast)
    ensures |Flatten(appended[..covered])| + |Flatten(broadcast[sent..])| == |Flatten(broadcast)|
            ==> covered == sent
    ensures covered == sent ==> appended[..covered] == broadcast[..sent]
  {
    FlattenSplit(broadcast, sent);
    if covered > sent {
      FlattenSplit(appended[..covered], sent);
      assert appended[..covered][..sent] == broadcast[..sent];
      FlattenGrows(appended[..covered][sent..]);
    } else if covered < sent {
      FlattenSplit(broadcast[..sent], covered);
      assert broadcast[..sent][..covered] == appended[..covered];
      FlattenGrows(broadcast[..sent][covered..]);
    }
  }

  predicate Speaks(e: Event) {
    (e.Append? ==> e.chunk != []) && (e.Exit? ==> e.notice != [])
  }

  lemma StepKeepsNonEmpty(w: World, e: Event)
    requires LogsOk(w.appended, w.broadcast, w.reader) && Speaks(e)
    requires NonEmpty(w.appended) && NonEmpty(w.broadcast)
    ensures NonEmpty(Next(w, e).appended) && NonEmpty(Next(w, e).broadcast)
  {
    assert w.reader.Pending? ==> w.reader.chunk == w.appended[|w.appended| - 1];
  }

  lemma {:induction false} ChunksComeFromEvents(events: seq<Event>)
    requires forall e :: e in events ==> Speaks(e)
    ensures NonEmpty(Execute(events).appended) && NonEmpty(Execute(events).broadcast)
  {
    if events != [] {
      var rest, last := events[..|events| - 1], events[|events| - 1];
      assert last in events;
      ChunksComeFromEvents(rest);
      InvHolds(rest);
      StepKeepsNonEmpty(Execute(rest), last);
    }
  }

  /** How many bytes of what it covers are no longer in the snapshot. */
  function Cut(w: World, t: Tab): nat
    requires t.phase.Sent? && SnapshotThenLive(w, t)
  {
    |Flatten(w.appended[..t.phase.covered])| - |t.phase.snapshot|
  }

  /** The screen shows everything that was broadcast but its first `cut` bytes, nothing lost or twice. */
  predicate ShowsAllBut(w: World, t: Tab, cut: nat) {
    cut <= |Flatten(w.broadcast)| && t.screen == Flatten(w.broadcast)[cut..]
  }

  /**
   * Whatever the length of the stream: a caught-up screen shows exactly what was broadcast, from
   * the first byte that the snapshot still had, if and only if as many chunks were covered by the
   * snapshot as had been broadcast at the transmit.
   */
  lemma FaithfulIff(events: seq<Event>, i: int)
    requires forall e :: e in events ==> Speaks(e)
    requires i in Execute(events).tabs && Execute(events).tabs[i].phase.Sent?
    requires Arrived(Execute(events).tabs[i], |Execute(events).broadcast|)
    requires Execute(events).tabs[i].wire == []
    ensures var w := Execute(events);
            var t := w.tabs[i];
            && SnapshotThenLive(w, t)
            && (ShowsAllBut(w, t, Cut(w, t)) <==> t.phase.covered == t.phase.sent)
            && (|t.phase.snapshot| < CAP ==> (t.screen == Flatten(w.broadcast) <==> t.phase.covered == t.phase.sent))
  {
    Reconnect(events, i);
    SentWithin(events, i);
    var w := Execute(events);
    var p := w.tabs[i].phase;
    JoinedLogs(events, p.covered, p.sent);
    FaithfulScreen(w, w.tabs[i]);
  }

  lemma FaithfulScreen(w: World, t: Tab)
    requires t.phase.Sent? && SnapshotThenLive(w, t) && t.wire == []
    requires JoinsUp(w, t.phase.covered, t.phase.sent)
    ensures ShowsAllBut(w, t, Cut(w, t)) <==> t.phase.covered == t.phase.sent
    ensures |t.phase.snapshot| < CAP ==> Cut(w, t) == 0 && (ShowsAllBut(w, t, 0) <==> t.screen == Flatten(w.broadcast))
  {
    var p, all := t.phase, Flatten(w.broadcast);
    WholeSlice(w.broadcast, p.sent);
    FlattenSplit(w.broadcast, p.sent);
    if p.covered == p.sent {
      var cut := Cut(w, t);
      assert all[cut..] == Flatten(w.broadcast[..p.sent])[cut..] + Flatten(w.broadcast[p.sent..]);
    }
  }

  lemma SentWithin(events: seq<Event>, i: int)
    requires i in Execute(events).tabs && Execute(events).tabs[i].phase.Sent?
    ensures var p := Execute(events).tabs[i].phase;
            p.seen <= p.sent <= |Execute(events).broadcast| && p.covered <= |Execute(events).appended|
  {
    InvHolds(events);
    var w := Execute(events);
    assert TabOk(w.appended, w.broadcast, w.reader.Stopped?, w.tabs[i]);
  }

  /** The first `covered` appended chunks meet the broadcasts from `sent` on without gap or overlap. */
  predicate JoinsUp(w: World, covered: nat, sent: nat) {
    && covered <= |w.appended| && sent <= |w.broadcast|
    && (|Flatten(w.appended[..covered])| + |Flatten(w.broadcast[sent..])| == |Flatten(w.broadcast)| ==> covered == sent)
    && (covered == sent ==> w.appended[..covered] == w.broadcast[..sent])
  }

  lemma JoinedLogs(events: seq<Event>, covered: nat, sent: nat)
    requires forall e :: e in events ==> Speaks(e)
    requires covered <= |Execute(events).appended| && sent <= |Execute(events).broadcast|
    ensures JoinsUp(Execute(events), covered, sent)
  {
    var w := Execute(events);
    ChunksComeFromEvents(events);
    forall k | 0 <= k < |w.appended| && k < |w.broadcast|
      ensures w.appended[k] == w.broadcast[k]
    {
      LogsShareTheirPrefix(events, k + 1);
      assert w.appended[..k + 1][k] == w.broadcast[..k + 1][k];
    }
    JoinedLength(w.appended, w.broadcast, covered, sent);
  }

  /** The two logs never disagree: the broadcasts are the appended chunks, in order. */
  lemma LogsShareTheirPrefix(events: seq<Event>, k: nat)
    requires k <= |Execute(events).appended| && k <= |Execute(events).broadcast|
    ensures Execute(events).appended[..k] == Execute(events).broadcast[..k]
  {
    InvHolds(events);
    LogsAgree(Execute(events).appended, Execute(events).broadcast, Execute(events).reader, k);
  }

  lemma LogsAgree(appended: seq<Bytes>, broadcast: seq<Bytes>, reader: Reader, k: nat)
    requires LogsOk(appended, broadcast, reader) && k <= |appended| && k <= |broadcast|
    ensures appended[..k] == broadcast[..k]
  {
    if |appended| > |broadcast| {
      assert appended[..|broadcast|] == broadcast;
      assert appended[..k] == appended[..|broadcast|][..k];
    } else if |broadcast| > |appended| {
      assert broadcast[..k] == broadcast[..|appended|][..k];
    }
  }

  lemma JoinRetains(appended: seq<Bytes>, broadcast: seq<Bytes>, snapshot: Bytes, covered: nat)
    requires covered <= |appended| && covered <= |broadcast|
    requires appended[..covered] == broadcast[..covered]
    requires Retains(snapshot, Flatten(appended[..covered]))
    ensures Retains(snapshot + Flatten(broadcast[covered..]), Flatten(broadcast))
  {
    FlattenSplit(broadcast, covered);
    RetainsMore(snapshot, Flatten(broadcast[..covered]), Flatten(broadcast[covered..]));
  }

  /** With any snapshot, trimmed or not: a screen that lost and repeated nothing ends the stream. */
  lemma CaughtUpScreenEndsStream(events: seq<Event>, i: int)
    requires i in Execute(events).tabs && Execute(events).tabs[i].phase.Sent?
    requires Arrived(Execute(events).tabs[i], |Execute(events).broadcast|)
    requires Execute(events).tabs[i].wire == []
    requires Execute(events).tabs[i].phase.covered == Execute(events).tabs[i].phase.sent
    ensures Retains(Execute(events).tabs[i].screen, Flatten(Execute(events).broadcast))
  {
    Reconnect(events, i);
    SentWithin(events, i);
    LogsShareTheirPrefix(events, Execute(events).tabs[i].phase.covered);
    CaughtUpScreen(Execute(events), Execute(events).tabs[i]);
  }

  lemma CaughtUpScreen(w: World, t: Tab)
    requires t.phase.Sent? && SnapshotThenLive(w, t) && t.wire == []
    requires t.phase.covered == t.phase.sent <= |w.broadcast|
    requires w.appended[..t.phase.covered] == w.broadcast[..t.phase.covered]
    ensures Retains(t.screen, Flatten(w.broadcast))
  {
    JoinRetains(w.appended, w.broadcast, t.phase.snapshot, t.phase.covered);
    WholeSlice(w.broadcast, t.phase.sent);
  }

  lemma WholeSlice(chunks: seq<Bytes>, m: nat)
    requires m <= |chunks|
    ensures chunks[m..|chunks|] == chunks[m..]
  {
  }

  /** Every snapshot is transmitted by the very next step. */
  predicate AtomicReads(events: seq<Event>) {
    forall k :: 0 <= k < |events| && events[k].ReadSnapshot? ==>
      k + 1 < |events| && events[k + 1] == Transmit(events[k].tab)
  }

  /** Each transmit saw no broadcast since its read; only the last event may be a read. */
  predicate NoGap(w: World, t: Tab, justRead: bool) {
    && (t.phase.Sent? ==> t.phase.seen == t.phase.sent)
    && (t.phase.Holding? ==> justRead && t.phase.seen == |w.broadcast|)
  }

  lemma AtomicStep(w: World, e: Event, i: int, justRead: bool)
    requires NoGap(w, TabOf(w, i), justRead) && (justRead ==> e == Transmit(i))
    ensures NoGap(Next(w, e), TabOf(Next(w, e), i), e == ReadSnapshot(i))
  {
    if Enabled(w, e) && e.Broadcast? && i in w.tabs {
      assert TabOf(Next(w, e), i) == Push(TabOf(w, i), w.reader.chunk);
    } else if Enabled(w, e) && e.Exit? && i in w.tabs {
      assert TabOf(Next(w, e), i) == Push(TabOf(w, i), e.notice);
    }
  }

  lemma {:induction false} AtomicPrefix(events: seq<Event>, n: nat, i: int)
    requires n <= |events| && AtomicReads(events)
    ensures NoGap(Execute(events[..n]), TabOf(Execute(events[..n]), i), n > 0 && events[n - 1] == ReadSnapshot(i))
  {
    if n > 0 {
      AtomicPrefix(events, n - 1, i);
      assert events[..n][..n - 1] == events[..n - 1];
      AtomicStep(Execute(events[..n - 1]), events[n - 1], i, n > 1 && events[n - 2] == ReadSnapshot(i));
    }
  }

  /**
   * When reading and transmitting the snapshot are one step, no chunk of the PTY is ever lost;
   * only the one the reader was holding can appear twice.
   */
  lemma NothingLostWhenAtomic(events: seq<Event>, i: int, k: nat)
    requires AtomicReads(events)
    requires i in Execute(events).tabs && Execute(events).tabs[i].phase.Sent?
    ensures var w := Execute(events);
            var p := w.tabs[i].phase;
            && (k < |w.appended| ==> !(p.covered <= k < p.sent))
            && (p.sent <= k < p.covered ==> k == p.seen == p.covered - 1)
  {
    assert events[..|events|] == events;
    AtomicPrefix(events, |events|, i);
    LossAndRepetition(events, i, k);
    InvHolds(events);
    var w := Execute(events);
    assert TabOk(w.appended, w.broadcast, w.reader.Stopped?, w.tabs[i]);
  }

  // ------------------------------------------------------- with the append as it is written

  /**
   * The trim raises when there is something to trim, and the reader stops there: as the code is
   * written, its runs are those of this model in which only a scrollback within the cap is trimmed.
   */
  predicate AsWritten(events: seq<Event>) {
    forall k :: 0 <= k < |events| && events[k].Trim? && Enabled(Execute(events[..k]), Trim) ==>
      |Execute(events[..k]).scrollback| <= CAP
  }

  /** Nothing is ever cut; past the cap the last chunk is kept, not broadcast, and nothing follows. */
  predicate EndsAtCap(w: World) {
    && w.scrollback == Flatten(w.appended)
    && (|w.scrollback| > CAP ==>
          && w.reader != Idle && !w.reader.Pending?
          && w.appended != [] && w.broadcast == w.appended[..|w.appended| - 1]
          && |Flatten(w.broadcast)| <= CAP)
  }

  lemma EndsAtCapStep(w: World, e: Event)
    requires LogsOk(w.appended, w.broadcast, w.reader) && EndsAtCap(w)
    requires e.Trim? && Enabled(w, e) ==> |w.scrollback| <= CAP
    ensures EndsAtCap(Next(w, e))
  {
    if Enabled(w, e) && e.Append? {
      FlattenSnoc(w.appended, e.chunk);
      assert (w.appended + [e.chunk])[..|w.appended|] == w.appended;
    } else if Enabled(w, e) && e.Kill? && w.reader.Trimming? {
      assert w.appended[..|w.appended| - 1] == w.broadcast;
    }
  }

  /** As written, a session's output ends with the chunk that takes it past 64 KiB. */
  lemma {:induction false} OutputEndsAtCapAsWritten(events: seq<Event>)
    requires AsWritten(events)
    ensures EndsAtCap(Execute(events))
  {
    if events != [] {
      var rest, e := events[..|events| - 1], events[|events| - 1];
      forall k | 0 <= k < |rest|
        ensures rest[..k] == events[..k]
      {
      }
      OutputEndsAtCapAsWritten(rest);
      InvHolds(rest);
      EndsAtCapStep(Execute(rest), e);
    }
  }

  lemma Then(events: seq<Event>, e: Event)
    ensures Execute(events + [e]) == Next(Execute(events), e)
  {
    assert (events + [e])[..|events|] == events;
  }

  /** A run that loses a chunk: it is broadcast after the read and before the transmit. */
  function LosingRun(chunk: Bytes): seq<Event> {
    [StreamFrom(0), ReadSnapshot(0), Append(chunk), Trim, Broadcast, Transmit(0), Arrive(0), Arrive(0)]
  }

  /** A run that shows a chunk twice: it is appended before the read and broadcast after it. */
  function RepeatingRun(chunk: Bytes): seq<Event> {
    [StreamFrom(0), Append(chunk), Trim, ReadSnapshot(0), Transmit(0), Broadcast, Arrive(0), Arrive(0)]
  }

  lemma Unfold8(r: seq<Event>)
    requires |r| == 8
    ensures Execute(r) ==
            Next(Next(Next(Next(Next(Next(Next(Next(Init, r[0]), r[1]), r[2]), r[3]), r[4]), r[5]), r[6]), r[7])
  {
    assert r[..1] == [] + [r[0]] && r[..2] == r[..1] + [r[1]] && r[..3] == r[..2] + [r[2]];
    assert r[..4] == r[..3] + [r[3]] && r[..5] == r[..4] + [r[4]] && r[..6] == r[..5] + [r[5]];
    assert r[..7] == r[..6] + [r[6]] && r == r[..7] + [r[7]];
    Then([], r[0]); Then(r[..1], r[1]); Then(r[..2], r[2]); Then(r[..3], r[3]);
    Then(r[..4], r[4]); Then(r[..5], r[5]); Then(r[..6], r[6]); Then(r[..7], r[7]);
  }

  /** Without that atomicity the promise fails: a chunk can be lost. */
  lemma ReconnectCanLose(chunk: Bytes)
    requires 0 < |chunk| <= CAP
    ensures var w := Execute(LosingRun(chunk));
            0 in w.tabs && w.tabs[0].wire == [] && w.broadcast == [chunk] && w.tabs[0].screen == []
  {
    Unfold8(LosingRun(chunk));
    var w3 := Next(Next(Next(Next(Next(Init, StreamFrom(0)), ReadSnapshot(0)), Append(chunk)), Trim), Broadcast);
    BroadcastBeforeTransmit(chunk);
    TwoArrive(Next(w3, Transmit(0)), Output(chunk), Scrollback([]));
  }

  lemma TwoArrive(w: World, m: Message, m': Message)
    requires 0 in w.tabs && w.tabs[0].wire == [m, m']
    ensures var w' := Next(Next(w, Arrive(0)), Arrive(0));
            && w'.broadcast == w.broadcast && 0 in w'.tabs && w'.tabs[0].wire == []
            && w'.tabs[0].screen == Handle(Handle(w.tabs[0].screen, m), m')
  {
    var w1 := Next(w, Arrive(0));
    assert w1.tabs[0].wire == [m'];
  }

  lemma BroadcastBeforeTransmit(chunk: Bytes)
    requires 0 < |chunk| <= CAP
    ensures Next(Next(Next(Next(Next(Init, StreamFrom(0)), ReadSnapshot(0)), Append(chunk)), Trim), Broadcast) ==
            World(chunk, [chunk], [chunk], Idle, map[0 := Tab([], [Output(chunk)], Holding([], 0, 0))])
  {
    var w1 := Next(Next(Init, StreamFrom(0)), ReadSnapshot(0));
    var tabs := map[0 := Tab([], [], Holding([], 0, 0))];
    assert w1 == World([], [], [], Idle, tabs);
    var w2 := Next(Next(w1, Append(chunk)), Trim);
    var none: Bytes, nothing: seq<Bytes> := [], [];
    assert none + chunk == chunk && nothing + [chunk] == [chunk];
    assert w2 == World(chunk, [chunk], [], Pending(chunk), tabs);
    var wire: seq<Message> := [];
    assert wire + [Output(chunk)] == [Output(chunk)];
    assert Next(w2, Broadcast).tabs == map[0 := Tab([], [Output(chunk)], Holding([], 0, 0))];
  }

  /** And a chunk can be shown twice, even with it. */
  lemma ReconnectCanRepeat(chunk: Bytes)
    requires 0 < |chunk| <= CAP
    ensures AtomicReads(RepeatingRun(chunk))
    ensures var w := Execute(RepeatingRun(chunk));
            0 in w.tabs && w.tabs[0].wire == [] && w.broadcast == [chunk] && w.tabs[0].screen == chunk + chunk
  {
    Unfold8(RepeatingRun(chunk));
    var w2 := Next(Next(Next(Next(Next(Init, StreamFrom(0)), Append(chunk)), Trim), ReadSnapshot(0)), Transmit(0));
    TransmitBeforeBroadcast(chunk);
    TwoArrive(Next(w2, Broadcast), Scrollback(chunk), Output(chunk));
  }

  lemma TransmitBeforeBroadcast(chunk: Bytes)
    requires 0 < |chunk| <= CAP
    ensures Next(Next(Next(Next(Next(Init, StreamFrom(0)), Append(chunk)), Trim), ReadSnapshot(0)), Transmit(0)) ==
            World(chunk, [chunk], [], Pending(chunk),
                  map[0 := Tab([], [Scrollback(chunk)], Sent(chunk, 1, 0, 0))])
  {
    var w1 := Next(Next(Next(Init, StreamFrom(0)), Append(chunk)), Trim);
    var none: Bytes, nothing: seq<Bytes> := [], [];
    assert none + chunk == chunk && nothing + [chunk] == [chunk];
    assert w1 == World(chunk, [chunk], [], Pending(chunk), map[0 := Tab([], [], Streaming)]);
    var w2 := Next(w1, ReadSnapshot(0));
    assert w2.tabs == map[0 := Tab([], [], Holding(chunk, 1, 0))];
    var wire: seq<Message> := [];
    assert wire + [Scrollback(chunk)] == [Scrollback(chunk)];
  }
}
