/**
 * One terminal session: the scrollback buffer, the reader loop and the input channel
 * that carries both keystrokes and 5-byte resize frames.
 */
module TerminalSession {
  import opened ByteStreams

  const SCROLLBACK_CAP: nat := 64 * 1024
  const RESIZE_PREFIX: byte := 0x01
  const RESIZE_LENGTH: nat := 5

  // ---------------------------------------------------------------- scrollback

  /** The buffer after a sequence of appends, each of them trimmed at once. */
  function AppendAll(buffer: Bytes, chunks: seq<Bytes>): Bytes {
    if chunks == [] then buffer
    else Keep(AppendAll(buffer, chunks[..|chunks| - 1]) + chunks[|chunks| - 1], SCROLLBACK_CAP)
  }

  lemma AppendAllSnoc(buffer: Bytes, chunks: seq<Bytes>, chunk: Bytes)
    ensures AppendAll(buffer, chunks + [chunk]) == Keep(AppendAll(buffer, chunks) + chunk, SCROLLBACK_CAP)
  {
    assert (chunks + [chunk])[..|chunks|] == chunks;
  }

  /** Trimming on every append is the same as one trim of the whole stream. */
  lemma {:induction false} ScrollbackIsTailOfStream(buffer: Bytes, chunks: seq<Bytes>)
    requires |buffer| <= SCROLLBACK_CAP
    ensures AppendAll(buffer, chunks) == Keep(buffer + Flatten(chunks), SCROLLBACK_CAP)
  {
    if chunks == [] {
      assert buffer + Flatten(chunks) == buffer;
    } else {
      var rest, last := chunks[..|chunks| - 1], chunks[|chunks| - 1];
      ScrollbackIsTailOfStream(buffer, rest);
      KeepAbsorbs(buffer + Flatten(rest), last, SCROLLBACK_CAP);
      Regroup(buffer, Flatten(rest), last);
    }
  }

  /** How the stream was cut into reads cannot be seen in the buffer. */
  lemma ChunkingIsInvisible(buffer: Bytes, chunks: seq<Bytes>, chunks': seq<Bytes>)
    requires |buffer| <= SCROLLBACK_CAP
    requires Flatten(chunks) == Flatten(chunks')
    ensures AppendAll(buffer, chunks) == AppendAll(buffer, chunks')
  {
    ScrollbackIsTailOfStream(buffer, chunks);
    ScrollbackIsTailOfStream(buffer, chunks');
  }

  // ------------------------------------------------ the append as it is written

  /**
   * The trim hands an array to `replace`, which raises: the buffer keeps the chunk, the chunk is
   * not broadcast, and the reader stops. `stopped` says that this has happened.
   */
  datatype Output = Output(buffer: Bytes, broadcasts: seq<Bytes>, stopped: bool)

  function Append(o: Output, chunk: Bytes): Output {
    if o.stopped then o
    else if |o.buffer + chunk| > SCROLLBACK_CAP then o.(buffer := o.buffer + chunk, stopped := true)
    else o.(buffer := o.buffer + chunk, broadcasts := o.broadcasts + [chunk])
  }

  function Appends(chunks: seq<Bytes>): Output {
    if chunks == [] then Output([], [], false)
    else Append(Appends(chunks[..|chunks| - 1]), chunks[|chunks| - 1])
  }

  /** The first `k` chunks fit and were broadcast; one more does not, and is only in the buffer. */
  predicate DiedOn(o: Output, chunks: seq<Bytes>, k: nat) {
    && k < |chunks|
    && |Flatten(chunks[..k])| <= SCROLLBACK_CAP < |Flatten(chunks[..k + 1])|
    && o == Output(Flatten(chunks[..k + 1]), chunks[..k], true)
  }

  lemma AppendsSnoc(chunks: seq<Bytes>, chunk: Bytes)
    ensures Appends(chunks + [chunk]) == Append(Appends(chunks), chunk)
  {
    assert (chunks + [chunk])[..|chunks|] == chunks;
  }

  ghost predicate Died(o: Output, chunks: seq<Bytes>) {
    exists k: nat :: DiedOn(o, chunks, k)
  }

  lemma StaysDead(o: Output, chunks: seq<Bytes>, chunk: Bytes)
    requires Died(o, chunks)
    ensures Died(o, chunks + [chunk]) && |Flatten(chunks + [chunk])| > SCROLLBACK_CAP
  {
    var k: nat :| DiedOn(o, chunks, k);
    var more := chunks + [chunk];
    assert more[..k] == chunks[..k] && more[..k + 1] == chunks[..k + 1];
    assert DiedOn(o, more, k);
    assert more == chunks[..k + 1] + more[k + 1..];
    FlattenAppend(chunks[..k + 1], more[k + 1..]);
  }

  lemma DiesNow(chunks: seq<Bytes>, chunk: Bytes)
    requires |Flatten(chunks)| <= SCROLLBACK_CAP < |Flatten(chunks) + chunk|
    ensures Died(Output(Flatten(chunks) + chunk, chunks, true), chunks + [chunk])
  {
    var more := chunks + [chunk];
    assert more[..|chunks|] == chunks && more[..|chunks| + 1] == more;
    FlattenSnoc(chunks, chunk);
    assert DiedOn(Output(Flatten(chunks) + chunk, chunks, true), more, |chunks|);
  }

  /**
   * As written, the reader dies if and only if the stream is longer than 64 KiB. Up to there buffer
   * and broadcasts are the whole stream; from there on they stay as the first chunk past the cap
   * left them, which is in the buffer and was not broadcast.
   */
  lemma {:induction false} ReaderDiesIff(chunks: seq<Bytes>)
    ensures var o := Appends(chunks);
            && (o.stopped <==> |Flatten(chunks)| > 65536)
            && (!o.stopped ==> o.buffer == Flatten(chunks) && o.broadcasts == chunks)
            && (o.stopped ==> Died(o, chunks))
  {
    if chunks != [] {
      var rest, last := chunks[..|chunks| - 1], chunks[|chunks| - 1];
      ReaderDiesIff(rest);
      assert chunks == rest + [last];
      FlattenSnoc(rest, last);
      if Appends(rest).stopped {
        StaysDead(Appends(rest), rest, last);
      } else if Appends(chunks).stopped {
        DiesNow(rest, last);
      }
    }
  }

  /** So the append as written and the one that trims agree exactly up to the cap. */
  lemma TrimsAsMeantIff(chunks: seq<Bytes>)
    ensures Appends(chunks).buffer == AppendAll([], chunks) && Appends(chunks).broadcasts == chunks
            <==> |Flatten(chunks)| <= 65536
  {
    ReaderDiesIff(chunks);
    ScrollbackIsTailOfStream([], chunks);
    assert [] + Flatten(chunks) == Flatten(chunks);
    if Appends(chunks).stopped {
      var k: nat :| DiedOn(Appends(chunks), chunks, k);
    }
  }

  /** For instance: any reads that fill the buffer exactly do no harm, and one byte more ends the session. */
  lemma OneByteTooMany(chunks: seq<Bytes>, b: byte)
    requires |Flatten(chunks)| == 65536
    ensures Appends(chunks) == Output(Flatten(chunks), chunks, false)
    ensures Appends(chunks + [[b]]) == Output(Flatten(chunks) + [b], chunks, true)
    ensures AppendAll([], chunks + [[b]]) == Flatten(chunks)[1..] + [b]
  {
    ReaderDiesIff(chunks);
    AppendsSnoc(chunks, [b]);
    MeantOneMore(chunks, b);
  }

  lemma MeantOneMore(chunks: seq<Bytes>, b: byte)
    requires |Flatten(chunks)| == SCROLLBACK_CAP
    ensures AppendAll([], chunks + [[b]]) == Flatten(chunks)[1..] + [b]
  {
    ScrollbackIsTailOfStream([], chunks);
    AppendAllSnoc([], chunks, [b]);
    assert [] + Flatten(chunks) == Flatten(chunks);
    KeepOneMore(Flatten(chunks), b, SCROLLBACK_CAP);
  }

  lemma KeepOneMore(s: Bytes, b: byte, cap: nat)
    requires |s| == cap > 0
    ensures Keep(s, cap) == s && Keep(s + [b], cap) == s[1..] + [b]
  {
  }

  // --------------------------------------------------------------- reader loop

  /** What one turn of the reader thread can meet on the PTY master. */
  datatype Read = Chunk(bytes: Bytes) | WouldBlock | Eof | MasterClosed(message: string) | Crash

  predicate Stops(r: Read) {
    r.Eof? || r.MasterClosed? || r.Crash?
  }

  function Notice(r: Read): seq<Bytes> {
    match r
    case Eof => [Ascii("\r\n[multipass shell exited]\r\n")]
    case MasterClosed(message) => [Ascii("\r\n[terminal closed: " + message + "]\r\n")]
    case _ => []
  }

  /** The chunks among a sequence of reads. */
  function Chunks(turns: seq<Read>): seq<Bytes> {
    if turns == [] then []
    else
      Chunks(turns[..|turns| - 1]) +
      (if turns[|turns| - 1].Chunk? then [turns[|turns| - 1].bytes] else [])
  }

  /** The chunks of a sequence of reads, one after another; a wait is no chunk. */
  lemma {:induction false} ChunksOfReads(chunks: seq<Bytes>, turns: seq<Read>)
    requires |turns| == |chunks| && forall i :: 0 <= i < |chunks| ==> turns[i] == Chunk(chunks[i])
    ensures Chunks(turns) == chunks && Chunks(turns + [WouldBlock]) == chunks
  {
    assert (turns + [WouldBlock])[..|turns|] == turns;
    if chunks != [] {
      ChunksOfReads(chunks[..|chunks| - 1], turns[..|turns| - 1]);
    }
  }

  /** One turn of the reader, with the append as it is meant. */
  function Take(o: Output, r: Read): Output {
    if r.Chunk? then o.(buffer := Keep(o.buffer + r.bytes, SCROLLBACK_CAP), broadcasts := o.broadcasts + [r.bytes])
    else o
  }

  function TakeAll(o: Output, turns: seq<Read>): Output {
    if turns == [] then o else Take(TakeAll(o, turns[..|turns| - 1]), turns[|turns| - 1])
  }

  lemma TakeStep(o: Output, turns: seq<Read>, n: nat)
    requires n < |turns|
    ensures TakeAll(o, turns[..n + 1]) == Take(TakeAll(o, turns[..n]), turns[n])
  {
    assert turns[..n + 1][..n] == turns[..n];
  }

  lemma {:induction false} TakeAllMeans(o: Output, turns: seq<Read>)
    ensures TakeAll(o, turns) ==
            Output(AppendAll(o.buffer, Chunks(turns)), o.broadcasts + Chunks(turns), o.stopped)
  {
    if turns == [] {
      assert o.broadcasts + [] == o.broadcasts;
    } else {
      var rest, r := turns[..|turns| - 1], turns[|turns| - 1];
      TakeAllMeans(o, rest);
      if r.Chunk? {
        AppendAllSnoc(o.buffer, Chunks(rest), r.bytes);
        Regroup(o.broadcasts, Chunks(rest), [r.bytes]);
      } else {
        assert Chunks(turns) == Chunks(rest);
      }
    }
  }

  /** And as it is written. */
  function TakeAsWritten(o: Output, r: Read): Output {
    if r.Chunk? then Append(o, r.bytes) else o
  }

  function TakeAllAsWritten(turns: seq<Read>): Output {
    if turns == [] then Output([], [], false)
    else TakeAsWritten(TakeAllAsWritten(turns[..|turns| - 1]), turns[|turns| - 1])
  }

  lemma TakeAsWrittenStep(turns: seq<Read>, n: nat)
    requires n < |turns|
    ensures TakeAllAsWritten(turns[..n + 1]) == TakeAsWritten(TakeAllAsWritten(turns[..n]), turns[n])
  {
    assert turns[..n + 1][..n] == turns[..n];
  }

  lemma {:induction false} TakeAllAsWrittenMeans(turns: seq<Read>)
    ensures TakeAllAsWritten(turns) == Appends(Chunks(turns))
  {
    if turns != [] {
      var rest, r := turns[..|turns| - 1], turns[|turns| - 1];
      TakeAllAsWrittenMeans(rest);
      if r.Chunk? {
        AppendsSnoc(Chunks(rest), r.bytes);
      } else {
        assert Chunks(turns) == Chunks(rest);
      }
    }
  }

  // ------------------------------------------------------------- input channel

  datatype Winsize = Winsize(rows: int, cols: int)

  /** What the PTY has received and the window size it was given last. */
  datatype Pty = Pty(input: Bytes, winsize: Winsize)

  predicate IsResize(data: Bytes) {
    |data| >= RESIZE_LENGTH && data[0] == RESIZE_PREFIX
  }

  function DecodeResize(data: Bytes): Winsize
    requires IsResize(data)
  {
    Winsize(data[3] as int * 256 + data[4] as int, data[1] as int * 256 + data[2] as int)
  }

  function Deliver(pty: Pty, data: Bytes): Pty {
    if IsResize(data) then pty.(winsize := DecodeResize(data))
    else pty.(input := pty.input + data)
  }

  function DeliverAll(pty: Pty, messages: seq<Bytes>): Pty {
    if messages == [] then pty
    else Deliver(DeliverAll(pty, messages[..|messages| - 1]), messages[|messages| - 1])
  }

  /** The messages that are not resize frames, in order. */
  function Plain(messages: seq<Bytes>): seq<Bytes> {
    if messages == [] then []
    else
      Plain(messages[..|messages| - 1]) +
      (if IsResize(messages[|messages| - 1]) then [] else [messages[|messages| - 1]])
  }

  /** `k` is the index of the last resize frame. */
  predicate LastResize(messages: seq<Bytes>, k: nat) {
    && k < |messages|
    && IsResize(messages[k])
    && forall j :: k < j < |messages| ==> !IsResize(messages[j])
  }

  /** The PTY receives the concatenation of exactly the messages that are not resize frames. */
  lemma {:induction false} InputIsPlainMessages(pty: Pty, messages: seq<Bytes>)
    ensures DeliverAll(pty, messages).input == pty.input + Flatten(Plain(messages))
  {
    if messages == [] {
      assert pty.input + [] == pty.input;
    } else {
      var rest, last := messages[..|messages| - 1], messages[|messages| - 1];
      InputIsPlainMessages(pty, rest);
      if IsResize(last) {
        assert Plain(messages) == Plain(rest);
      } else {
        FlattenSnoc(Plain(rest), last);
        assert pty.input + Flatten(Plain(rest)) + last == pty.input + (Flatten(Plain(rest)) + last);
      }
    }
  }

  /** The window size is that of the last resize frame. */
  lemma {:induction false} WinsizeIsLastFrame(pty: Pty, messages: seq<Bytes>, k: nat)
    requires LastResize(messages, k)
    ensures DeliverAll(pty, messages).winsize == DecodeResize(messages[k])
  {
    var rest, last := messages[..|messages| - 1], messages[|messages| - 1];
    if k < |rest| {
      assert rest[k] == messages[k];
      assert forall j :: k < j < |rest| ==> rest[j] == messages[j];
      WinsizeIsLastFrame(pty, rest, k);
    }
  }

  lemma {:induction false} WinsizeKeptWithoutFrames(pty: Pty, messages: seq<Bytes>)
    requires forall m :: m in messages ==> !IsResize(m)
    ensures DeliverAll(pty, messages).winsize == pty.winsize
  {
    if messages != [] {
      assert messages[|messages| - 1] in messages;
      WinsizeKeptWithoutFrames(pty, messages[..|messages| - 1]);
    }
  }

  /** `(n >> 8) & 0xff` and `n & 0xff`, for integers of either sign. */
  function HighByte(n: int): byte { (n / 256 % 256) as byte }
  function LowByte(n: int): byte { (n % 256) as byte }

  function ResizeFrame(cols: int, rows: int): Bytes {
    [RESIZE_PREFIX, HighByte(cols), LowByte(cols), HighByte(rows), LowByte(rows)]
  }

  lemma TwoBytes(n: int)
    ensures HighByte(n) as int * 256 + LowByte(n) as int == n % 65536
  {
    var q := n / 65536;
    assert n / 256 == q * 256 + n % 65536 / 256;
  }

  /** Decoding an encoded resize gives both dimensions back modulo 2^16, whatever they were and whatever follows. */
  lemma ResizeRoundTrip(cols: int, rows: int, more: Bytes)
    ensures IsResize(ResizeFrame(cols, rows) + more)
    ensures DecodeResize(ResizeFrame(cols, rows) + more) == Winsize(rows % 65536, cols % 65536)
  {
    TwoBytes(cols);
    TwoBytes(rows);
  }

  /** What the browser means to send: keystrokes, or a new terminal size. */
  datatype Send = Keys(bytes: Bytes) | Resize(cols: int, rows: int)

  function Encode(s: Send): Bytes {
    match s
    case Keys(bytes) => bytes
    case Resize(cols, rows) => ResizeFrame(cols, rows)
  }

  function EncodeAll(sends: seq<Send>): seq<Bytes> {
    seq(|sends|, i requires 0 <= i < |sends| => Encode(sends[i]))
  }

  /** Everything that was typed. */
  function Typed(sends: seq<Send>): Bytes {
    if sends == [] then []
    else
      Typed(sends[..|sends| - 1]) +
      (if sends[|sends| - 1].Keys? then sends[|sends| - 1].bytes else [])
  }

  /** A keystroke message that the session takes for a resize frame. */
  predicate Misread(s: Send) {
    s.Keys? && |s.bytes| >= RESIZE_LENGTH && s.bytes[0] == RESIZE_PREFIX
  }

  lemma EncodeAllSnoc(pty: Pty, sends: seq<Send>, s: Send)
    ensures EncodeAll(sends + [s]) == EncodeAll(sends) + [Encode(s)]
    ensures DeliverAll(pty, EncodeAll(sends + [s])) == Deliver(DeliverAll(pty, EncodeAll(sends)), Encode(s))
    ensures Typed(sends + [s]) == Typed(sends) + if s.Keys? then s.bytes else []
  {
    assert (sends + [s])[..|sends|] == sends;
    assert EncodeAll(sends + [s])[..|sends|] == EncodeAll(sends);
  }

  predicate AnyMisread(sends: seq<Send>) {
    exists i :: 0 <= i < |sends| && Misread(sends[i])
  }

  lemma AnyMisreadSnoc(sends: seq<Send>, s: Send)
    ensures AnyMisread(sends + [s]) <==> AnyMisread(sends) || Misread(s)
  {
    var more := sends + [s];
    assert more[|sends|] == s && forall i :: 0 <= i < |sends| ==> more[i] == sends[i];
  }

  /** A message that is misread adds nothing to the input, so what was typed cannot all be there. */
  lemma {:induction false} InputLength(pty: Pty, sends: seq<Send>)
    ensures |DeliverAll(pty, EncodeAll(sends)).input| <= |pty.input| + |Typed(sends)|
    ensures AnyMisread(sends) ==> |DeliverAll(pty, EncodeAll(sends)).input| < |pty.input| + |Typed(sends)|
  {
    if sends != [] {
      var rest, last := sends[..|sends| - 1], sends[|sends| - 1];
      InputLength(pty, rest);
      assert sends == rest + [last];
      EncodeAllSnoc(pty, rest, last);
      AnyMisreadSnoc(rest, last);
    }
  }

  lemma {:induction false} KeystrokesArrive(pty: Pty, sends: seq<Send>)
    requires !AnyMisread(sends)
    ensures DeliverAll(pty, EncodeAll(sends)).input == pty.input + Typed(sends)
  {
    if sends != [] {
      var rest, last := sends[..|sends| - 1], sends[|sends| - 1];
      assert sends == rest + [last];
      AnyMisreadSnoc(rest, last);
      KeystrokesArrive(pty, rest);
      EncodeAllSnoc(pty, rest, last);
    }
  }

  /**
   * The one byte channel carries keystrokes and sizes without mixing them up exactly when no
   * keystroke message of five bytes or more starts with 0x01.
   */
  lemma KeystrokesArriveIff(pty: Pty, sends: seq<Send>)
    ensures DeliverAll(pty, EncodeAll(sends)).input == pty.input + Typed(sends) <==> !AnyMisread(sends)
  {
    InputLength(pty, sends);
    if !AnyMisread(sends) {
      KeystrokesArrive(pty, sends);
    }
  }

  /** For instance: Ctrl-A and four letters pasted at once never reach the shell, and resize it. */
  lemma PastedCtrlAIsMisread(pty: Pty)
    ensures var pasted: Bytes := [1, 97, 98, 99, 100];
            DeliverAll(pty, [pasted]) == pty.(winsize := Winsize(25444, 24930))
  {
    var pasted: Bytes := [1, 97, 98, 99, 100];
    assert [pasted][..0] == [];
    assert DeliverAll(pty, [pasted]) == Deliver(pty, pasted);
  }

  // ------------------------------------------------------------------ the class

  class Session {
    var scrollback: Bytes
    var closed: bool
    var masterOpen: bool
    var pty: Pty
    var broadcasts: seq<Bytes>

    constructor ()
      ensures scrollback == [] && !closed && masterOpen && broadcasts == []
      ensures pty == Pty([], Winsize(40, 120))
    {
      scrollback, closed, masterOpen, broadcasts := [], false, true, [];
      pty := Pty([], Winsize(40, 120));
    }

    /** The append as it is meant: what `replace` is to leave behind. */
    method AppendScrollback(chunk: Bytes)
      modifies this`scrollback
      ensures scrollback == Keep(old(scrollback) + chunk, SCROLLBACK_CAP)
    {
      scrollback := scrollback + chunk;
      if |scrollback| > SCROLLBACK_CAP {
        scrollback := scrollback[|scrollback| - SCROLLBACK_CAP..];
      }
    }

    method BroadcastOutput(chunk: Bytes)
      modifies this`broadcasts
      ensures broadcasts == old(broadcasts) + [chunk]
    {
      broadcasts := broadcasts + [chunk];
    }

    /** The loop of the reader thread, up to a read that stops it or until the thread is killed. */
    method ReadChunks(turns: seq<Read>) returns (n: nat)
      modifies this`scrollback, this`broadcasts
      ensures n <= |turns| && (forall i :: 0 <= i < n ==> !Stops(turns[i]))
      ensures n < |turns| ==> Stops(turns[n])
      ensures scrollback == AppendAll(old(scrollback), Chunks(turns[..n]))
      ensures broadcasts == old(broadcasts) + Chunks(turns[..n])
    {
      ghost var start := Output(scrollback, broadcasts, false);
      n := 0;
      while n < |turns| && !Stops(turns[n])
        invariant n <= |turns| && forall i :: 0 <= i < n ==> !Stops(turns[i])
        invariant Output(scrollback, broadcasts, false) == TakeAll(start, turns[..n])
      {
        TakeStep(start, turns, n);
        if turns[n].Chunk? {
          AppendScrollback(turns[n].bytes);
          BroadcastOutput(turns[n].bytes);
        }
        n := n + 1;
      }
      TakeAllMeans(start, turns[..n]);
    }

    /**
     * The reader thread, for the reads it performs before it stops: at the end of file, when
     * the master is closed, on a crash, or because the thread is killed (the reads run out).
     */
    method RunReader(turns: seq<Read>) returns (n: nat)
      requires !closed && |scrollback| <= SCROLLBACK_CAP
      modifies this`scrollback, this`broadcasts, this`closed
      ensures n <= |turns| && (forall i :: 0 <= i < n ==> turns[i].Chunk? || turns[i].WouldBlock?)
      ensures n < |turns| ==> turns[n].Eof? || turns[n].MasterClosed? || turns[n].Crash?
      ensures scrollback == Keep(old(scrollback) + Flatten(Chunks(turns[..n])), SCROLLBACK_CAP)
      ensures broadcasts == old(broadcasts) + Chunks(turns[..n]) +
                            (if n < |turns| then Notice(turns[n]) else [])
      ensures n < |turns| && turns[n].Eof? ==>
                broadcasts == old(broadcasts) + Chunks(turns[..n]) + [Ascii("\r\n[multipass shell exited]\r\n")]
      ensures n < |turns| && turns[n].MasterClosed? ==>
                broadcasts == old(broadcasts) + Chunks(turns[..n]) +
                              [Ascii("\r\n[terminal closed: " + turns[n].message + "]\r\n")]
      ensures n == |turns| || turns[n].Crash? ==> broadcasts == old(broadcasts) + Chunks(turns[..n])
      ensures closed
    {
      n := ReadChunks(turns);
      ScrollbackIsTailOfStream(old(scrollback), Chunks(turns[..n]));
      ghost var said := broadcasts;
      if n < |turns| && Notice(turns[n]) != [] {
        BroadcastOutput(Notice(turns[n])[0]);
      }
      assert broadcasts == said + if n < |turns| then Notice(turns[n]) else [];
      closed := true;
    }

    /** The append as it is written: with something to trim it raises, and keeps the whole buffer. */
    method AppendScrollbackAsWritten(chunk: Bytes) returns (raised: bool)
      modifies this`scrollback
      ensures scrollback == old(scrollback) + chunk
      ensures raised <==> |scrollback| > SCROLLBACK_CAP
    {
      scrollback := scrollback + chunk;
      raised := |scrollback| > SCROLLBACK_CAP;
    }

    /** The loop with that append: it also stops when that raises. */
    method ReadChunksAsWritten(turns: seq<Read>) returns (n: nat, raised: bool)
      requires scrollback == [] && broadcasts == []
      modifies this`scrollback, this`broadcasts
      ensures n <= |turns| && (forall i :: 0 <= i < n ==> !Stops(turns[i]))
      ensures TakeAllAsWritten(turns[..n]) == Output(scrollback, broadcasts, raised)
      ensures raised ==> n > 0 && !TakeAllAsWritten(turns[..n - 1]).stopped
      ensures n < |turns| && !raised ==> Stops(turns[n])
    {
      n, raised := 0, false;
      while n < |turns| && !raised && !Stops(turns[n])
        invariant n <= |turns| && forall i :: 0 <= i < n ==> !Stops(turns[i])
        invariant TakeAllAsWritten(turns[..n]) == Output(scrollback, broadcasts, raised)
        invariant raised ==> n > 0 && !TakeAllAsWritten(turns[..n - 1]).stopped
      {
        TakeAsWrittenStep(turns, n);
        if turns[n].Chunk? {
          raised := AppendScrollbackAsWritten(turns[n].bytes);
          if !raised {
            BroadcastOutput(turns[n].bytes);
          }
        }
        n := n + 1;
      }
    }

    /** The reader thread with that append: when it raises, there is no notice. */
    method RunReaderAsWritten(turns: seq<Read>) returns (n: nat)
      requires !closed && scrollback == [] && broadcasts == []
      modifies this`scrollback, this`broadcasts, this`closed
      ensures n <= |turns| && (forall i :: 0 <= i < n ==> turns[i].Chunk? || turns[i].WouldBlock?)
      ensures var o := Appends(Chunks(turns[..n]));
              && scrollback == o.buffer
              && broadcasts == o.broadcasts + (if !o.stopped && n < |turns| then Notice(turns[n]) else [])
              && (n < |turns| ==> o.stopped || turns[n].Eof? || turns[n].MasterClosed? || turns[n].Crash?)
              && (o.stopped ==> n > 0 && !Appends(Chunks(turns[..n - 1])).stopped)
      ensures closed
    {
      var raised;
      n, raised := ReadChunksAsWritten(turns);
      TakeAllAsWrittenMeans(turns[..n]);
      if raised {
        TakeAllAsWrittenMeans(turns[..n - 1]);
      }
      if !raised && n < |turns| && Notice(turns[n]) != [] {
        BroadcastOutput(Notice(turns[n])[0]);
      }
      closed := true;
    }

    /** `ptyAlive` is false when the operating system refuses the call. */
    method Write(data: Bytes, ptyAlive: bool)
      modifies this`pty
      ensures pty == if !closed && masterOpen && ptyAlive then Deliver(old(pty), data) else old(pty)
    {
      if closed {
        return;
      }
      if |data| >= RESIZE_LENGTH && data[0] == RESIZE_PREFIX {
        var cols := data[1] as int * 256 + data[2] as int;
        var rows := data[3] as int * 256 + data[4] as int;
        if masterOpen && ptyAlive {
          pty := pty.(winsize := Winsize(rows, cols));
        }
        return;
      }
      if masterOpen && ptyAlive {
        pty := pty.(input := pty.input + data);
      }
    }
  }

  /** The browser's side of a resize: a 5-byte buffer filled in place. */
  method BuildResize(cols: int, rows: int) returns (buf: array<byte>)
    ensures fresh(buf) && buf[..] == ResizeFrame(cols, rows)
  {
    buf := new byte[5];
    buf[0] := 0x01;
    buf[1] := (cols / 256 % 256) as byte;
    buf[2] := (cols % 256) as byte;
    buf[3] := (rows / 256 % 256) as byte;
    buf[4] := (rows % 256) as byte;
  }
}
