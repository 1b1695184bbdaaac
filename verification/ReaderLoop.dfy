/** The background reader: it drains the parser, hands events and replies on,
    reads with a timer, and decides when and why the connection is over. */
module ReaderLoop {
  import opened Text
  import opened Incremental
  import opened Framing
  import opened Parser

  const READ_TIMER_MS := 2000
  const DISPOSITION: Bytes := "Content-Disposition"
  const LINGER: Bytes := "linger"

  /** How one read ends. A read begins when the one before it has ended, and a
      timed-out read takes exactly the timer. */
  datatype Read =
    | Data(bytes: Bytes)
    | TimedOut
    | Eof
    | ReadFails

  datatype IoCause = ParserFailed(error: Error) | BufferFull(size: nat) | SocketFailed

  datatype Reason = ServerNotice | HeartbeatExpired | ConnectionClosed | IoError(cause: IoCause)

  /** What the loop does to the outside, in order: an event that `dispatch_event`
      accepted, a reply taken to the pending slot, a change of the status. */
  datatype Effect =
    | Dispatch(message: Message)
    | Route(message: Message)
    | Publish(reason: Reason)

  datatype Exit =
    | Running              // the reads so far are used up
    | ChannelClosed        // nobody receives events any more
    | Published(reason: Reason)

  // ---- The outside ----

  /** The number of events dispatched so far. */
  function Count(log: seq<Effect>): nat {
    if log == [] then 0
    else Count(log[..|log| - 1]) + (if log[|log| - 1].Dispatch? then 1 else 0)
  }

  /** The ends of the channels that the loop holds. */
  class Outlets {
    const closesAt: Option<nat>  // the dispatch that finds the event channel closed, if one does
    var log: seq<Effect>

    constructor (closesAt: Option<nat>)
      ensures this.closesAt == closesAt && log == []
    {
      this.closesAt := closesAt;
      log := [];
    }

    /** `dispatch_event`, as the loop sees it. */
    method DispatchEvent(m: Message) returns (ok: bool)
      modifies this
      ensures ok <==> closesAt != Some(Count(old(log)))
      ensures log == if ok then old(log) + [Dispatch(m)] else old(log)
    {
      ok := closesAt != Some(Count(log));
      if ok {
        log := log + [Dispatch(m)];
      }
    }

    /** The reply goes to whoever is in the pending slot. */
    method RouteReply(m: Message)
      modifies this
      ensures log == old(log) + [Route(m)]
    {
      log := log + [Route(m)];
    }

    /** `status_tx.send`. */
    method PublishReason(reason: Reason)
      modifies this
      ensures log == old(log) + [Publish(reason)]
    {
      log := log + [Publish(reason)];
    }
  }

  // ---- Messages, one after another ----

  /** What the messages so far led to. */
  datatype Handled = Handled(log: seq<Effect>, exit: Exit)

  predicate Lingers(m: Message) {
    DISPOSITION in m.headers && m.headers[DISPOSITION] == LINGER
  }

  function Handle(h: Handled, m: Message, closesAt: Option<nat>): Handled {
    if !h.exit.Running? then h
    else
      match m.messageType
      case Event =>
        if closesAt == Some(Count(h.log)) then h.(exit := ChannelClosed)
        else h.(log := h.log + [Dispatch(m)])
      case CommandReply => h.(log := h.log + [Route(m)])
      case ApiResponse => h.(log := h.log + [Route(m)])
      case Disconnect => if Lingers(m) then h else Conclude(h, Published(ServerNotice))
      case AuthRequest => h
      case Unknown(_) => h
  }

  function HandleAll(ms: seq<Message>, closesAt: Option<nat>): Handled {
    if ms == [] then Handled([], Running)
    else Handle(HandleAll(ms[..|ms| - 1], closesAt), ms[|ms| - 1], closesAt)
  }

  /** What an exit sends on the status channel: its reason, if it has one. */
  function Announced(exit: Exit): seq<Effect> {
    if exit.Published? then [Publish(exit.reason)] else []
  }

  function Conclude(h: Handled, exit: Exit): Handled {
    Handled(h.log + Announced(exit), exit)
  }

  predicate IsEvent(m: Message) {
    m.messageType.Event?
  }

  predicate IsReply(m: Message) {
    m.messageType.CommandReply? || m.messageType.ApiResponse?
  }

  predicate IsFinalNotice(m: Message) {
    m.messageType.Disconnect? && !Lingers(m)
  }

  function EffectOf(m: Message): seq<Effect> {
    if IsEvent(m) then [Dispatch(m)] else if IsReply(m) then [Route(m)] else []
  }

  /** Every event dispatched and every reply routed, in order, and nothing else. */
  function EffectsOf(ms: seq<Message>): seq<Effect> {
    if ms == [] then [] else EffectsOf(ms[..|ms| - 1]) + EffectOf(ms[|ms| - 1])
  }

  /** The message that ends the run: a disconnect notice that does not linger,
      or the event that finds the channel closed. */
  predicate Terminates(ms: seq<Message>, t: nat, closesAt: Option<nat>)
    requires t < |ms|
  {
    IsFinalNotice(ms[t]) || (IsEvent(ms[t]) && closesAt == Some(Count(EffectsOf(ms[..t]))))
  }

  /** Where the run ends, if it does. */
  predicate FirstTerminating(ms: seq<Message>, t: nat, closesAt: Option<nat>) {
    && t < |ms| && Terminates(ms, t, closesAt)
    && NoneTerminates(ms, t, closesAt)
  }

  predicate NoneTerminates(ms: seq<Message>, n: nat, closesAt: Option<nat>)
    requires n <= |ms|
  {
    forall i | 0 <= i < n :: !Terminates(ms, i, closesAt)
  }

  lemma {:induction false} NothingTerminates(ms: seq<Message>, closesAt: Option<nat>)
    requires NoneTerminates(ms, |ms|, closesAt)
    ensures HandleAll(ms, closesAt) == Handled(EffectsOf(ms), Running)
    decreases |ms|
  {
    if ms != [] {
      var before := ms[..|ms| - 1];
      NoneInPrefix(ms, |before|, closesAt);
      NothingTerminates(before, closesAt);
      assert !Terminates(ms, |ms| - 1, closesAt);
    }
  }

  lemma NoneInPrefix(ms: seq<Message>, n: nat, closesAt: Option<nat>)
    requires n <= |ms| && NoneTerminates(ms, n, closesAt)
    ensures NoneTerminates(ms[..n], n, closesAt)
  {
    var before := ms[..n];
    forall i | 0 <= i < n ensures !Terminates(before, i, closesAt) {
      assert before[..i] == ms[..i];
      assert !Terminates(ms, i, closesAt);
    }
  }

  lemma {:induction false} HandleAfterExit(ms: seq<Message>, t: nat, closesAt: Option<nat>)
    requires t <= |ms| && !HandleAll(ms[..t], closesAt).exit.Running?
    ensures HandleAll(ms, closesAt) == HandleAll(ms[..t], closesAt)
    decreases |ms|
  {
    if t < |ms| {
      var before := ms[..|ms| - 1];
      assert before[..t] == ms[..t];
      HandleAfterExit(before, t, closesAt);
    } else {
      assert ms[..t] == ms;
    }
  }

  lemma HandleNext(ms: seq<Message>, m: Message, closesAt: Option<nat>)
    ensures HandleAll(ms + [m], closesAt) == Handle(HandleAll(ms, closesAt), m, closesAt)
  {
    assert (ms + [m])[..|ms|] == ms;
  }

  /** What a terminating message does. */
  function MessageExit(m: Message): Exit {
    if IsFinalNotice(m) then Published(ServerNotice) else ChannelClosed
  }

  lemma HandleTerminating(before: seq<Message>, m: Message, closesAt: Option<nat>)
    requires HandleAll(before, closesAt) == Handled(EffectsOf(before), Running)
    requires IsFinalNotice(m) || (IsEvent(m) && closesAt == Some(Count(EffectsOf(before))))
    ensures HandleAll(before + [m], closesAt) ==
      Conclude(Handled(EffectsOf(before), Running), MessageExit(m))
  {
    HandleNext(before, m, closesAt);
    assert EffectsOf(before) + [] == EffectsOf(before);
  }

  /** The effects are exactly those of the messages before the first terminating
      one, in order, and then what that message announces; later messages change
      nothing, and a lingering notice is not an end. */
  lemma HandledExactly(ms: seq<Message>, t: nat, closesAt: Option<nat>)
    requires FirstTerminating(ms, t, closesAt)
    ensures HandleAll(ms, closesAt) ==
      Conclude(Handled(EffectsOf(ms[..t]), Running), MessageExit(ms[t]))
  {
    NoneInPrefix(ms, t, closesAt);
    NothingTerminates(ms[..t], closesAt);
    HandleTerminating(ms[..t], ms[t], closesAt);
    assert ms[..t + 1] == ms[..t] + [ms[t]];
    HandleAfterExit(ms, t + 1, closesAt);
  }

  // ---- Reads ----

  /** All bytes up to the end of a script: those the parser held when the loop
      began, left over from authentication, and those the reads brought. */
  function DataOf(held: Bytes, script: seq<Read>): Bytes {
    if script == [] then held
    else DataOf(held, script[..|script| - 1]) + ChunkOf(script[|script| - 1])
  }

  function ChunkOf(read: Read): Bytes {
    if read.Data? then read.bytes else []
  }

  /** Milliseconds since data last arrived (or since the loop began). */
  function Silence(script: seq<Read>): nat {
    if script == [] then 0
    else SilenceAfter(script[|script| - 1], Silence(script[..|script| - 1]))
  }

  function SilenceAfter(read: Read, silence: nat): nat {
    match read
    case Data(_) => 0
    case TimedOut => silence + READ_TIMER_MS
    case _ => silence
  }

  /** What a read leads to, with `unread` bytes buffered and `silence` elapsed
      before it. */
  function ReadExit(read: Read, unread: nat, silence: nat, threshold: nat): Exit {
    match read
    case Eof => Published(ConnectionClosed)
    case ReadFails => Published(IoError(SocketFailed))
    case Data(bytes) =>
      if unread + |bytes| > MAX_BUFFER_SIZE then Published(IoError(BufferFull(unread + |bytes|))) else Running
    case TimedOut =>
      if 0 < threshold < silence + READ_TIMER_MS then Published(HeartbeatExpired) else Running
  }

  function StopExit(stop: Stop<Error>): Exit {
    match stop
    case ParseError(e) => Published(IoError(ParserFailed(e)))
    case BufferOverflow(size) => Published(IoError(BufferFull(size)))
  }

  /** With `used` reads used up and everything decodable handled without an end:
      the decoder's error ends the loop, or the next read does, or nothing. */
  function CauseAfter(script: seq<Read>, threshold: nat, used: nat, run: ParserRun): Exit
    requires used <= |script|
  {
    if run.end.Some? then StopExit(run.end.value)
    else if used == |script| then Running
    else ReadExit(script[used], |run.rest|, Silence(script[..used]), threshold)
  }

  /** Messages end a round before anything else can. */
  function Settle(h: Handled, cause: Exit): Handled {
    if h.exit.Running? then Conclude(h, cause) else h
  }

  function RoundOn(script: seq<Read>, threshold: nat, closesAt: Option<nat>, used: nat, run: ParserRun): Handled
    requires used <= |script|
  {
    Settle(HandleAll(run.messages, closesAt), CauseAfter(script, threshold, used, run))
  }

  /** By one-shot decoding: what the reader has done, and whether it goes on, when
      it has used up `used` reads, handled what they hold, and looks at the next. */
  function Round(held: Bytes, script: seq<Read>, threshold: nat, closesAt: Option<nat>, used: nat): Handled
    requires used <= |script|
  {
    RoundOn(script, threshold, closesAt, used, DecodeStream(DataOf(held, script[..used])))
  }

  predicate GoesOn(held: Bytes, script: seq<Read>, threshold: nat, closesAt: Option<nat>, i: nat)
    requires i < |script|
  {
    Round(held, script, threshold, closesAt, i).exit.Running?
  }

  predicate ReadsOn(held: Bytes, script: seq<Read>, threshold: nat, closesAt: Option<nat>, used: nat)
    requires used <= |script|
  {
    forall i | 0 <= i < used :: GoesOn(held, script, threshold, closesAt, i)
  }

  datatype Outcome = Outcome(handled: Handled, used: nat)

  /** The whole behaviour of the reader: it goes on through every round that gives
      it no reason to end, and ends with the first that does, or with the script. */
  predicate Explains(held: Bytes, script: seq<Read>, threshold: nat, closesAt: Option<nat>, r: Outcome) {
    && r.used <= |script|
    && ReadsOn(held, script, threshold, closesAt, r.used)
    && r.handled == Round(held, script, threshold, closesAt, r.used)
    && (r.handled.exit.Running? ==> r.used == |script|)
  }

  /** There is exactly one such behaviour. */
  lemma BehaviourIsDetermined(held: Bytes, script: seq<Read>, threshold: nat, closesAt: Option<nat>,
                              r: Outcome, r': Outcome)
    requires Explains(held, script, threshold, closesAt, r) && Explains(held, script, threshold, closesAt, r')
    ensures r == r'
  {
    assert r.used < r'.used ==> GoesOn(held, script, threshold, closesAt, r.used);
    assert r'.used < r.used ==> GoesOn(held, script, threshold, closesAt, r'.used);
  }

  // ---- The loop ----

  /** The parser is in the middle of draining: what it has emitted so far, with
      what is still to come from its buffer, is the decoding of all that was
      read. */
  ghost predicate Draining(data: Bytes, ms: seq<Message>, st: State, unread: Bytes)
  {
    ParserIsIncremental();
    DecodeStream(data) == Prepend(ms, Decode(Framing.ParseMessage, st, unread))
  }

  lemma DrainOne(data: Bytes, ms: seq<Message>, st: State, unread: Bytes)
    requires Draining(data, ms, st, unread)
    ensures match Framing.ParseMessage(st, unread)
      case Emit(m, st', rest) => |rest| < |unread| && Draining(data, ms + [m], st', rest)
      case Pending(st', rest) => DecodeStream(data) == Run(ms, None, st', rest) && Draining(data, ms, st', rest)
      case Failed(e, st', rest) => DecodeStream(data) == Run(ms, Some(ParseError(e)), st', rest)
  {
    ParserIsIncremental();
    DecodeStepwise(Framing.ParseMessage, ms, st, unread);
  }

  lemma DrainMore(data: Bytes, ms: seq<Message>, st: State, unread: Bytes, chunk: Bytes)
    requires DecodeStream(data) == Run(ms, None, st, unread)
    ensures Draining(data + chunk, ms, st, unread + chunk)
  {
    ParserIsIncremental();
    DecodeAppend(Framing.ParseMessage, WaitingForHeaders, data, chunk);
  }

  lemma EndsByMessage(held: Bytes, script: seq<Read>, threshold: nat, closesAt: Option<nat>, used: nat,
                      ms: seq<Message>, st: State, unread: Bytes)
    requires used <= |script| && Draining(DataOf(held, script[..used]), ms, st, unread)
    requires !HandleAll(ms, closesAt).exit.Running?
    ensures Round(held, script, threshold, closesAt, used) == HandleAll(ms, closesAt)
  {
    ParserIsIncremental();
    var all := DecodeStream(DataOf(held, script[..used])).messages;
    assert all[..|ms|] == ms;
    HandleAfterExit(all, |ms|, closesAt);
  }

  /** The arms for a complete message; the loop goes on unless they set an exit. */
  method OnMessage(out: Outlets, message: Message) returns (exit: Exit)
    modifies out
    ensures Handled(out.log, exit) == Handle(Handled(old(out.log), Running), message, out.closesAt)
  {
    exit := Running;
    match message.messageType {
      case Event =>
        var ok := out.DispatchEvent(message);
        if !ok {
          exit := ChannelClosed;
        }
      case CommandReply => out.RouteReply(message);
      case ApiResponse => out.RouteReply(message);
      case Disconnect =>
        if !Lingers(message) {
          out.PublishReason(ServerNotice);
          exit := Published(ServerNotice);
        }
      case AuthRequest =>
      case Unknown(_) =>
    }
  }

  /** The arms for the result of a read. */
  method OnRead(parser: EslParser, out: Outlets, read: Read, silence: nat, threshold: nat)
    returns (exit: Exit, silence': nat)
    requires parser.Valid()
    modifies parser.buffer, parser.buffer.store, out
    ensures parser.Valid()
    ensures parser.buffer.store == old(parser.buffer.store) || fresh(parser.buffer.store)
    ensures parser.Unread() == old(parser.Unread()) + ChunkOf(read)
    ensures exit == ReadExit(read, |old(parser.Unread())|, silence, threshold)
    ensures out.log == old(out.log) + Announced(exit)
    ensures silence' == SilenceAfter(read, silence)
  {
    exit, silence' := Running, silence;
    match read {
      case Eof =>
        out.PublishReason(ConnectionClosed);
        exit := Published(ConnectionClosed);
      case ReadFails =>
        out.PublishReason(IoError(SocketFailed));
        exit := Published(IoError(SocketFailed));
      case Data(bytes) =>
        silence' := 0;
        var overflow := parser.AddData(bytes);
        if overflow.Some? {
          out.PublishReason(IoError(BufferFull(overflow.value.size)));
          exit := Published(IoError(BufferFull(overflow.value.size)));
        }
      case TimedOut =>
        silence' := silence + READ_TIMER_MS;
        if threshold > 0 {
          if silence' > threshold {
            out.PublishReason(HeartbeatExpired);
            exit := Published(HeartbeatExpired);
          }
        }
    }
    assert out.log == old(out.log) + Announced(exit);
  }

  lemma ScriptStep(held: Bytes, script: seq<Read>, used: nat)
    requires used < |script|
    ensures Silence(script[..used + 1]) == SilenceAfter(script[used], Silence(script[..used]))
    ensures DataOf(held, script[..used + 1]) == DataOf(held, script[..used]) + ChunkOf(script[used])
  {
    assert script[..used + 1][..used] == script[..used];
  }

  /** One read, once the buffer is drained: the round ends the loop, or the loop
      goes on draining. */
  lemma ReadStep(held: Bytes, script: seq<Read>, threshold: nat, closesAt: Option<nat>, used: nat,
                 ms: seq<Message>, st: State, unread: Bytes, h: Handled)
    requires used < |script| && DecodeStream(DataOf(held, script[..used])) == Run(ms, None, st, unread)
    requires h == HandleAll(ms, closesAt) && h.exit.Running?
    ensures var exit := ReadExit(script[used], |unread|, Silence(script[..used]), threshold);
      Round(held, script, threshold, closesAt, used) == Conclude(h, exit)
    ensures Draining(DataOf(held, script[..used + 1]), ms, st, unread + ChunkOf(script[used]))
    ensures Silence(script[..used + 1]) == SilenceAfter(script[used], Silence(script[..used]))
  {
    ScriptStep(held, script, used);
    DrainMore(DataOf(held, script[..used]), ms, st, unread, ChunkOf(script[used]));
  }

  /** The first half of a round: one complete message, if the buffer holds one, is
      handled. */
  method HandleBuffered(parser: EslParser, out: Outlets, ghost held: Bytes, ghost script: seq<Read>,
                        ghost threshold: nat, ghost used: nat, ghost ms: seq<Message>)
    returns (exit: Exit, drained: bool, ghost ms': seq<Message>)
    requires parser.Valid() && used <= |script|
    requires Draining(DataOf(held, script[..used]), ms, parser.state, parser.Unread())
    requires HandleAll(ms, out.closesAt) == Handled(out.log, Running)
    modifies parser`state, parser.buffer, parser.buffer.store, out
    ensures parser.Valid() && parser.buffer.store == old(parser.buffer.store)
    ensures drained ==> exit.Running? && ms' == ms && out.log == old(out.log)
    ensures drained ==> DecodeStream(DataOf(held, script[..used])) == Run(ms, None, parser.state, parser.Unread())
    ensures !drained && exit.Running? ==> |parser.Unread()| < |old(parser.Unread())|
    ensures !drained && exit.Running? ==>
      && Draining(DataOf(held, script[..used]), ms', parser.state, parser.Unread())
      && HandleAll(ms', out.closesAt) == Handled(out.log, Running)
    ensures !exit.Running? ==>
      Round(held, script, threshold, out.closesAt, used) == Handled(out.log, exit)
  {
    ghost var data := DataOf(held, script[..used]);
    exit, drained, ms' := Running, false, ms;
    DrainOne(data, ms, parser.state, parser.Unread());
    var parsed := parser.ParseMessage();
    match parsed {
      case Ok(Some(message)) =>
        HandleNext(ms, message, out.closesAt);
        ms' := ms + [message];
        exit := OnMessage(out, message);
        if !exit.Running? {
          EndsByMessage(held, script, threshold, out.closesAt, used, ms', parser.state, parser.Unread());
        }
      case Err(e) =>
        out.PublishReason(IoError(ParserFailed(e)));
        exit := Published(IoError(ParserFailed(e)));
      case Ok(None) =>
        drained := true;
    }
  }

  lemma NothingAnnounced(log: seq<Effect>)
    ensures log + Announced(Running) == log
  {
  }

  /** The second half of a round: one read. */
  method TakeRead(parser: EslParser, out: Outlets, script: seq<Read>, threshold: nat, used: nat, silence: nat,
                  ghost held: Bytes, ghost ms: seq<Message>)
    returns (exit: Exit, silence': nat)
    requires parser.Valid() && used < |script| && silence == Silence(script[..used])
    requires DecodeStream(DataOf(held, script[..used])) == Run(ms, None, parser.state, parser.Unread())
    requires HandleAll(ms, out.closesAt) == Handled(out.log, Running)
    modifies parser.buffer, parser.buffer.store, out
    ensures parser.Valid()
    ensures parser.buffer.store == old(parser.buffer.store) || fresh(parser.buffer.store)
    ensures Round(held, script, threshold, out.closesAt, used) == Handled(out.log, exit)
    ensures exit.Running? ==> Draining(DataOf(held, script[..used + 1]), ms, parser.state, parser.Unread())
    ensures exit.Running? ==> HandleAll(ms, out.closesAt) == Handled(out.log, Running)
    ensures silence' == Silence(script[..used + 1])
  {
    ReadStep(held, script, threshold, out.closesAt, used, ms, parser.state, parser.Unread(), Handled(out.log, Running));
    NothingAnnounced(out.log);
    exit, silence' := OnRead(parser, out, script[used], silence, threshold);
  }

  lemma StartIsDraining(held: Bytes, script: seq<Read>)
    ensures Silence(script[..0]) == 0
    ensures Draining(DataOf(held, script[..0]), [], WaitingForHeaders, held)
  {
    var d := DecodeStream(held);
    assert [] + d.messages == d.messages;
  }

  lemma ScriptEnds(held: Bytes, script: seq<Read>, threshold: nat, closesAt: Option<nat>, used: nat,
                   ms: seq<Message>, st: State, unread: Bytes, h: Handled)
    requires used == |script| && DecodeStream(DataOf(held, script[..used])) == Run(ms, None, st, unread)
    requires h == HandleAll(ms, closesAt) && h.exit.Running?
    ensures Round(held, script, threshold, closesAt, used) == h
  {
    assert h.log + [] == h.log;
  }

  lemma StopsHere(held: Bytes, script: seq<Read>, threshold: nat, closesAt: Option<nat>, used: nat, h: Handled)
    requires used <= |script| && ReadsOn(held, script, threshold, closesAt, used)
    requires Round(held, script, threshold, closesAt, used) == h && (h.exit.Running? ==> used == |script|)
    ensures Explains(held, script, threshold, closesAt, Outcome(h, used))
  {
  }

  lemma ReadsOnNext(held: Bytes, script: seq<Read>, threshold: nat, closesAt: Option<nat>, used: nat)
    requires used < |script| && ReadsOn(held, script, threshold, closesAt, used)
    requires Round(held, script, threshold, closesAt, used).exit.Running?
    ensures ReadsOn(held, script, threshold, closesAt, used + 1)
  {
  }

  /** `reader_loop_inner`, on a script of read results. The parser may hold bytes
      that came after the reply to authentication. */
  method ReaderLoopInner(parser: EslParser, script: seq<Read>, threshold: nat, closesAt: Option<nat>)
    returns (r: Outcome)
    requires parser.Valid() && parser.state == WaitingForHeaders
    modifies parser`state, parser.buffer, parser.buffer.store
    ensures Explains(old(parser.Unread()), script, threshold, closesAt, r)
  {
    var out := new Outlets(closesAt);
    var used := 0;
    var silence := 0;  // milliseconds since `last_recv`
    ghost var held := parser.Unread();
    ghost var ms: seq<Message> := [];
    StartIsDraining(held, script);
    while true
      invariant parser.Valid() && (parser.buffer.store == old(parser.buffer.store) || fresh(parser.buffer.store))
      invariant fresh(out) && out.closesAt == closesAt
      invariant used <= |script| && silence == Silence(script[..used])
      invariant ReadsOn(held, script, threshold, closesAt, used)
      invariant Draining(DataOf(held, script[..used]), ms, parser.state, parser.Unread())
      invariant HandleAll(ms, closesAt) == Handled(out.log, Running)
      decreases |script| - used, |parser.Unread()|
    {
      var exit, drained;
      exit, drained, ms := HandleBuffered(parser, out, held, script, threshold, used, ms);
      if !exit.Running? {
        StopsHere(held, script, threshold, closesAt, used, Handled(out.log, exit));
        return Outcome(Handled(out.log, exit), used);
      }
      if !drained {
        continue;
      }
      ghost var h := Handled(out.log, Running);
      if used == |script| {
        ScriptEnds(held, script, threshold, closesAt, used, ms, parser.state, parser.Unread(), h);
        StopsHere(held, script, threshold, closesAt, used, h);
        return Outcome(Handled(out.log, Running), used);
      }
      exit, silence := TakeRead(parser, out, script, threshold, used, silence, held, ms);
      if !exit.Running? {
        StopsHere(held, script, threshold, closesAt, used, Handled(out.log, exit));
        return Outcome(Handled(out.log, exit), used);
      }
      ReadsOnNext(held, script, threshold, closesAt, used);
      used := used + 1;
    }
  }

  // ---- Lifecycle ----

  predicate ByMessage(exit: Exit) {
    exit == ChannelClosed || exit == Published(ServerNotice)
  }

  /** Where the effects come from. */
  lemma SettledEffects(ms: seq<Message>, closesAt: Option<nat>, cause: Exit) returns (t: nat)
    requires !ByMessage(cause)
    ensures t <= |ms|
    ensures var h := Settle(HandleAll(ms, closesAt), cause);
      && h.log == EffectsOf(ms[..t]) + Announced(h.exit)
      && (if t < |ms| then FirstTerminating(ms, t, closesAt) && h.exit == MessageExit(ms[t])
          else NoneTerminates(ms, t, closesAt) && h.exit == cause)
  {
    if i :| 0 <= i < |ms| && Terminates(ms, i, closesAt) {
      t := FirstTerminatingExists(ms, i, closesAt);
      HandledExactly(ms, t, closesAt);
    } else {
      t := |ms|;
      assert ms[..t] == ms;
      NothingTerminates(ms, closesAt);
    }
  }

  /** The same of a round, given what it has decoded. */
  lemma RoundEffects(script: seq<Read>, threshold: nat, closesAt: Option<nat>, used: nat, run: ParserRun, h: Handled)
    returns (t: nat)
    requires used <= |script| && h == RoundOn(script, threshold, closesAt, used, run)
    ensures t <= |run.messages|
    ensures h.log == EffectsOf(run.messages[..t]) + Announced(h.exit)
    ensures t < |run.messages| ==>
      FirstTerminating(run.messages, t, closesAt) && h.exit == MessageExit(run.messages[t])
    ensures t == |run.messages| ==>
      && NoneTerminates(run.messages, t, closesAt)
      && h.exit == CauseAfter(script, threshold, used, run) && !ByMessage(h.exit)
  {
    t := SettledEffects(run.messages, closesAt, CauseAfter(script, threshold, used, run));
  }

  lemma {:induction false} EffectsPublishNothing(ms: seq<Message>)
    ensures forall e | e in EffectsOf(ms) :: !e.Publish?
    decreases |ms|
  {
    if ms != [] {
      EffectsPublishNothing(ms[..|ms| - 1]);
    }
  }

  /** The status leaves Connected at most once, and that is the last thing the
      loop does: nothing is dispatched or routed afterwards. It leaves exactly
      when the loop ends otherwise than by a closed event channel, and with the
      reason that ended it. */
  lemma StatusChangesOnce(held: Bytes, script: seq<Read>, threshold: nat, closesAt: Option<nat>, r: Outcome)
    requires Explains(held, script, threshold, closesAt, r)
    ensures var log := r.handled.log;
      && (forall i | 0 <= i < |log| - 1 :: !log[i].Publish?)
      && (r.handled.exit.Published? <==> log != [] && log[|log| - 1].Publish?)
      && (r.handled.exit.Published? ==> log[|log| - 1] == Publish(r.handled.exit.reason))
  {
    var run := DecodeStream(DataOf(held, script[..r.used]));
    var t := RoundEffects(script, threshold, closesAt, r.used, run, r.handled);
    EffectsPublishNothing(run.messages[..t]);
  }

  lemma {:induction false} DataOfPrefix(held: Bytes, script: seq<Read>, k: nat)
    requires k <= |script|
    ensures DataOf(held, script[..k]) <= DataOf(held, script)
    decreases |script|
  {
    if k < |script| {
      var before := script[..|script| - 1];
      assert before[..k] == script[..k];
      DataOfPrefix(held, before, k);
    } else {
      assert script[..k] == script;
    }
  }

  /** More bytes only add messages. */
  lemma MessagesGrow(a: Bytes, b: Bytes)
    requires a <= b
    ensures DecodeStream(a).messages <= DecodeStream(b).messages
  {
    ParserIsIncremental();
    assert b == a + b[|a|..];
    DecodeAppend(Framing.ParseMessage, WaitingForHeaders, a, b[|a|..]);
  }

  lemma {:induction false} FirstTerminatingExists(ms: seq<Message>, i: nat, closesAt: Option<nat>) returns (t: nat)
    requires i < |ms| && Terminates(ms, i, closesAt)
    ensures t <= i && FirstTerminating(ms, t, closesAt)
    decreases i
  {
    if j :| 0 <= j < i && Terminates(ms, j, closesAt) {
      t := FirstTerminatingExists(ms, j, closesAt);
    } else {
      t := i;
    }
  }

  lemma TerminatesInPrefix(p: seq<Message>, ms: seq<Message>, t: nat, closesAt: Option<nat>)
    requires p <= ms && FirstTerminating(p, t, closesAt)
    ensures FirstTerminating(ms, t, closesAt) && ms[..t] == p[..t] && ms[t] == p[t]
  {
    assert forall i | 0 <= i <= t :: ms[i] == p[i] && ms[..i] == p[..i];
    assert Terminates(ms, t, closesAt);
    forall i | 0 <= i < t ensures !Terminates(ms, i, closesAt) {
      assert !Terminates(p, i, closesAt);
      assert ms[..i] == p[..i];
    }
  }

  /** What the first `i` reads hold. */
  function MessagesIn(held: Bytes, script: seq<Read>, i: nat): seq<Message>
    requires i <= |script|
  {
    DecodeStream(DataOf(held, script[..i])).messages
  }

  lemma MessagesInGrow(held: Bytes, script: seq<Read>, i: nat)
    requires i <= |script|
    ensures MessagesIn(held, script, i) <= DecodeStream(DataOf(held, script)).messages
  {
    DataOfPrefix(held, script, i);
    MessagesGrow(DataOf(held, script[..i]), DataOf(held, script));
  }

  /** Nothing the loop read past was a reason to end: no end of file, no failed
      read, no overflow, no undecodable message, no terminating message, and no
      more silence than the threshold. */
  lemma ReadsBeforeTheEnd(held: Bytes, script: seq<Read>, threshold: nat, closesAt: Option<nat>, r: Outcome, i: nat)
    requires Explains(held, script, threshold, closesAt, r) && i < r.used
    ensures script[i].Data? || script[i].TimedOut?
    ensures var run := DecodeStream(DataOf(held, script[..i]));
      && run.end.None?
      && NoneTerminates(run.messages, |run.messages|, closesAt)
      && (script[i].Data? ==> |run.rest| + |script[i].bytes| <= 16_777_216)
    ensures threshold > 0 ==> Silence(script[..i + 1]) <= threshold
  {
    assert GoesOn(held, script, threshold, closesAt, i);
    GoesOnMeans(script, threshold, closesAt, i, DecodeStream(DataOf(held, script[..i])));
    ScriptStep(held, script, i);
  }

  lemma GoesOnMeans(script: seq<Read>, threshold: nat, closesAt: Option<nat>, i: nat, run: ParserRun)
    requires i < |script| && RoundOn(script, threshold, closesAt, i, run).exit.Running?
    ensures script[i].Data? || script[i].TimedOut?
    ensures run.end.None? && NoneTerminates(run.messages, |run.messages|, closesAt)
    ensures script[i].Data? ==> |run.rest| + |script[i].bytes| <= MAX_BUFFER_SIZE
    ensures threshold > 0 && script[i].TimedOut? ==> SilenceAfter(script[i], Silence(script[..i])) <= threshold
  {
    var t := RoundEffects(script, threshold, closesAt, i, run, RoundOn(script, threshold, closesAt, i, run));
  }

  /** Of the whole stream the script carries, however its reads cut it, the effects
      are exactly those of the messages before the first terminating one, in order,
      when a message ends the loop. It then ends at the read that completes this
      message: with a server notice if the message is a disconnect notice, silently
      if it is an event that found the channel closed. When something else ends the
      loop, the effects are those of every message that the reads before the end
      hold. */
  lemma HandledFromStream(held: Bytes, script: seq<Read>, threshold: nat, closesAt: Option<nat>, r: Outcome)
    returns (t: nat)
    requires Explains(held, script, threshold, closesAt, r)
    ensures var ms := DecodeStream(DataOf(held, script)).messages;
      && t <= |ms|
      && r.handled.log == EffectsOf(ms[..t]) + Announced(r.handled.exit)
      && (if ByMessage(r.handled.exit)
          then FirstTerminating(ms, t, closesAt) && r.handled.exit == MessageExit(ms[t]) &&
               t < |MessagesIn(held, script, r.used)| &&
               forall i | 0 <= i < r.used :: |MessagesIn(held, script, i)| <= t
          else NoneTerminates(ms, t, closesAt) && t == |MessagesIn(held, script, r.used)|)
  {
    var read := MessagesIn(held, script, r.used);
    var ms := DecodeStream(DataOf(held, script)).messages;
    MessagesInGrow(held, script, r.used);
    t := RoundEffects(script, threshold, closesAt, r.used, DecodeStream(DataOf(held, script[..r.used])), r.handled);
    HandledOfPrefix(read, ms, t, closesAt);
    if t < |read| {
      forall i | 0 <= i < r.used ensures |MessagesIn(held, script, i)| <= t {
        ReadsBeforeTheEnd(held, script, threshold, closesAt, r, i);
        MessagesInGrow(held, script, i);
        if t < |MessagesIn(held, script, i)| {
          NotYetTerminating(MessagesIn(held, script, i), ms, t, closesAt);
        }
      }
    }
  }

  lemma NotYetTerminating(p: seq<Message>, ms: seq<Message>, t: nat, closesAt: Option<nat>)
    requires p <= ms && t < |p| && FirstTerminating(ms, t, closesAt)
    ensures !NoneTerminates(p, |p|, closesAt)
  {
    assert p[..t] == ms[..t] && p[t] == ms[t];
    assert Terminates(p, t, closesAt);
  }

  lemma HandledOfPrefix(read: seq<Message>, ms: seq<Message>, t: nat, closesAt: Option<nat>)
    requires read <= ms && t <= |read|
    requires if t < |read| then FirstTerminating(read, t, closesAt) else NoneTerminates(read, t, closesAt)
    ensures ms[..t] == read[..t]
    ensures if t < |read| then FirstTerminating(ms, t, closesAt) else NoneTerminates(ms, t, closesAt)
  {
    if t < |read| {
      TerminatesInPrefix(read, ms, t, closesAt);
    } else {
      forall i | 0 <= i < t ensures !Terminates(ms, i, closesAt) {
        assert !Terminates(read, i, closesAt);
        assert ms[..i] == read[..i] && ms[i] == read[i];
      }
    }
  }

  /** The first message that ends the run is a disconnect notice that does not
      linger. */
  predicate NoticeEnds(ms: seq<Message>, closesAt: Option<nat>) {
    exists t | 0 <= t < |ms| :: FirstTerminating(ms, t, closesAt) && IsFinalNotice(ms[t])
  }

  predicate Refused(ms: seq<Message>, t: nat, closesAt: Option<nat>)
    requires t < |ms|
  {
    IsEvent(ms[t]) && closesAt == Some(Count(EffectsOf(ms[..t])))
  }

  /** It is an event that found the channel closed. */
  predicate RefusalEnds(ms: seq<Message>, closesAt: Option<nat>) {
    exists t | 0 <= t < |ms| :: FirstTerminating(ms, t, closesAt) && Refused(ms, t, closesAt)
  }

  /** The cause of each kind of exit. */
  predicate CausedBy(script: seq<Read>, closesAt: Option<nat>, used: nat, run: ParserRun, exit: Exit) {
    match exit
    case Running => used == |script|
    case ChannelClosed => RefusalEnds(run.messages, closesAt)
    case Published(ServerNotice) => NoticeEnds(run.messages, closesAt)
    case Published(IoError(ParserFailed(e))) => run.end == Some(ParseError(e))
    case Published(ConnectionClosed) => used < |script| && script[used].Eof?
    case Published(IoError(SocketFailed)) => used < |script| && script[used].ReadFails?
    case Published(HeartbeatExpired) => used < |script| && script[used].TimedOut?
    case Published(IoError(BufferFull(size))) =>
      used < |script| && script[used].Data? && size == |run.rest| + |script[used].bytes| > 16_777_216
  }

  /** Every reason published is the cause that ended the loop. */
  lemma CauseOfExit(held: Bytes, script: seq<Read>, threshold: nat, closesAt: Option<nat>, r: Outcome)
    requires Explains(held, script, threshold, closesAt, r)
    ensures CausedBy(script, closesAt, r.used, DecodeStream(DataOf(held, script[..r.used])), r.handled.exit)
  {
    var run := DecodeStream(DataOf(held, script[..r.used]));
    ParserIsIncremental();
    DecodeNeverOverflows(Framing.ParseMessage, WaitingForHeaders, DataOf(held, script[..r.used]));
    CauseOfRound(script, threshold, closesAt, r.used, run, r.handled);
  }

  lemma CauseOfRound(script: seq<Read>, threshold: nat, closesAt: Option<nat>, used: nat, run: ParserRun, h: Handled)
    requires used <= |script| && h == RoundOn(script, threshold, closesAt, used, run) && !Overflowed(run)
    requires h.exit.Running? ==> used == |script|
    ensures CausedBy(script, closesAt, used, run, h.exit)
  {
    var t := RoundEffects(script, threshold, closesAt, used, run, h);
  }

  // ---- Liveness ----

  /** Wherever the loop gets to, it has not been silent for longer than the
      threshold: a reader whose silence exceeds it cannot read on. */
  lemma SilenceStaysBelow(held: Bytes, script: seq<Read>, threshold: nat, closesAt: Option<nat>, r: Outcome, i: nat)
    requires Explains(held, script, threshold, closesAt, r) && i <= r.used && threshold > 0
    ensures Silence(script[..i]) <= threshold
  {
    if i > 0 {
      ReadsBeforeTheEnd(held, script, threshold, closesAt, r, i - 1);
    }
  }

  /** The reads from `from` up to `i` all timed out, and the one before them, if
      there is one, brought data. */
  predicate TimedOutSince(script: seq<Read>, from: nat, i: nat) {
    && from <= i <= |script|
    && (forall j | from <= j < i :: script[j].TimedOut?)
    && (from > 0 ==> script[from - 1].Data?)
  }

  predicate Harmless(script: seq<Read>, i: nat) {
    i <= |script| && forall j | 0 <= j < i :: script[j].Data? || script[j].TimedOut?
  }

  /** The silence is the time since the last data: two seconds for every read that
      timed out after it, however many did before. */
  lemma {:induction false} SilenceIsSinceData(script: seq<Read>, i: nat) returns (from: nat)
    requires Harmless(script, i)
    ensures TimedOutSince(script, from, i) && Silence(script[..i]) == (i - from) * 2000
    decreases i
  {
    if i == 0 || script[i - 1].Data? {
      from := i;
    } else {
      from := SilenceIsSinceData(script, i - 1);
    }
    if i > 0 {
      assert script[..i][..i - 1] == script[..i - 1];
    }
  }

  /** The liveness timer strikes only when data has been missing for more than the
      threshold: the last reads, since data last came (or since the start), all
      timed out, for longer than the threshold in all, and without the last of them
      not for longer. It never strikes when it is off. */
  lemma HeartbeatWindow(held: Bytes, script: seq<Read>, threshold: nat, closesAt: Option<nat>, r: Outcome)
    returns (from: nat)
    requires Explains(held, script, threshold, closesAt, r)
    requires r.handled.exit == Published(HeartbeatExpired)
    ensures r.used < |script| && TimedOutSince(script, from, r.used + 1) && from <= r.used
    ensures 0 < threshold && (r.used - from) * 2000 <= threshold < (r.used + 1 - from) * 2000
    ensures Silence(script[..r.used + 1]) == (r.used + 1 - from) * 2000
  {
    ExpiryCame(held, script, threshold, closesAt, r);
    PassedReads(held, script, threshold, closesAt, r, r.used);
    from := SilenceIsSinceData(script, r.used);
    SilenceStaysBelow(held, script, threshold, closesAt, r, r.used);
    OneMoreTimeout(held, script, threshold, r.used, from);
  }

  lemma ExpiryCame(held: Bytes, script: seq<Read>, threshold: nat, closesAt: Option<nat>, r: Outcome)
    requires Explains(held, script, threshold, closesAt, r)
    requires r.handled.exit == Published(HeartbeatExpired)
    ensures r.used < |script| && script[r.used].TimedOut?
    ensures 0 < threshold < Silence(script[..r.used]) + READ_TIMER_MS
  {
    CauseOfExit(held, script, threshold, closesAt, r);
    ExpiryMeans(script, threshold, closesAt, r.used, DecodeStream(DataOf(held, script[..r.used])));
  }

  lemma OneMoreTimeout(held: Bytes, script: seq<Read>, threshold: nat, used: nat, from: nat)
    requires used < |script| && script[used].TimedOut? && TimedOutSince(script, from, used)
    requires Silence(script[..used]) == (used - from) * 2000 <= threshold < Silence(script[..used]) + READ_TIMER_MS
    ensures TimedOutSince(script, from, used + 1)
    ensures Silence(script[..used + 1]) == (used + 1 - from) * 2000 > threshold
  {
    ScriptStep(held, script, used);
  }

  lemma PassedReads(held: Bytes, script: seq<Read>, threshold: nat, closesAt: Option<nat>, r: Outcome, i: nat)
    requires Explains(held, script, threshold, closesAt, r) && i <= r.used
    ensures Harmless(script, i)
  {
    forall j | 0 <= j < i ensures script[j].Data? || script[j].TimedOut? {
      ReadsBeforeTheEnd(held, script, threshold, closesAt, r, j);
    }
  }

  lemma OneStart(script: seq<Read>, a: nat, b: nat, i: nat)
    requires TimedOutSince(script, a, i) && TimedOutSince(script, b, i)
    ensures a == b
  {
  }

  /** Wherever the loop gets to, the reads that timed out since the last data took no
      longer than the threshold. */
  lemma SilenceIsAllowed(held: Bytes, script: seq<Read>, threshold: nat, closesAt: Option<nat>, r: Outcome,
                         from: nat, i: nat)
    requires Explains(held, script, threshold, closesAt, r) && threshold > 0
    requires i <= r.used && TimedOutSince(script, from, i)
    ensures (i - from) * 2000 <= threshold
  {
    PassedReads(held, script, threshold, closesAt, r, i);
    var start := SilenceIsSinceData(script, i);
    OneStart(script, from, start, i);
    SilenceStaysBelow(held, script, threshold, closesAt, r, i);
  }

  /** Traffic keeps the connection alive: a loop in whose script data arrives before
      the threshold has passed, again and again, never publishes an expiry. */
  lemma TrafficKeepsAlive(held: Bytes, script: seq<Read>, threshold: nat, closesAt: Option<nat>, r: Outcome)
    requires Explains(held, script, threshold, closesAt, r)
    requires forall from: nat, i: nat | TimedOutSince(script, from, i) :: (i - from) * 2000 <= threshold
    ensures r.handled.exit != Published(HeartbeatExpired)
  {
    if r.handled.exit == Published(HeartbeatExpired) {
      var from := HeartbeatWindow(held, script, threshold, closesAt, r);
      assert false;
    }
  }

  lemma ExpiryMeans(script: seq<Read>, threshold: nat, closesAt: Option<nat>, used: nat, run: ParserRun)
    requires used < |script| && script[used].TimedOut?
    requires RoundOn(script, threshold, closesAt, used, run).exit == Published(HeartbeatExpired)
    ensures 0 < threshold < Silence(script[..used]) + READ_TIMER_MS
  {
    var t := RoundEffects(script, threshold, closesAt, used, run, RoundOn(script, threshold, closesAt, used, run));
  }

  /** All reads in the range time out. */
  predicate QuietFrom(script: seq<Read>, from: nat) {
    forall i | from <= i < |script| :: script[i].TimedOut?
  }

  lemma {:induction false} QuietTail(held: Bytes, script: seq<Read>, from: nat, i: nat)
    requires from <= i <= |script| && QuietFrom(script, from)
    ensures Silence(script[..i]) >= (i - from) * READ_TIMER_MS
    ensures DataOf(held, script[..i]) == DataOf(held, script[..from])
    decreases i
  {
    if from < i {
      QuietTail(held, script, from, i - 1);
      ScriptStep(held, script, i - 1);
      assert DataOf(held, script[..i - 1]) + [] == DataOf(held, script[..i - 1]);
    }
  }

  /** After `from` reads and what they hold, the loop has no reason to end. */
  predicate Alive(held: Bytes, script: seq<Read>, closesAt: Option<nat>, from: nat)
    requires from <= |script|
  {
    var run := DecodeStream(DataOf(held, script[..from]));
    run.end.None? && HandleAll(run.messages, closesAt).exit.Running?
  }

  /** It strikes, and in time: when no data arrives from some point on for longer
      than the threshold, a loop that was alive there publishes that the heartbeat
      expired, at most one read timer after the silence exceeded the threshold. */
  lemma SilenceEndsTheLoop(held: Bytes, script: seq<Read>, threshold: nat, closesAt: Option<nat>, r: Outcome, from: nat)
    requires Explains(held, script, threshold, closesAt, r)
    requires from <= r.used && Alive(held, script, closesAt, from) && QuietFrom(script, from)
    requires 0 < threshold < (|script| - from) * 2000
    ensures r.handled.exit == Published(HeartbeatExpired) && r.used < |script|
    ensures (r.used + 1 - from) * 2000 <= threshold + 2000
  {
    QuietTail(held, script, from, r.used);
    SilenceStaysBelow(held, script, threshold, closesAt, r, r.used);
    AliveRound(held, script, threshold, closesAt, r.used, DecodeStream(DataOf(held, script[..from])));
    var last := HeartbeatWindow(held, script, threshold, closesAt, r);
  }

  lemma AliveRound(held: Bytes, script: seq<Read>, threshold: nat, closesAt: Option<nat>, used: nat, run: ParserRun)
    requires used <= |script| && run == DecodeStream(DataOf(held, script[..used]))
    requires run.end.None? && HandleAll(run.messages, closesAt).exit.Running?
    ensures Round(held, script, threshold, closesAt, used).exit ==
      if used == |script| then Running else ReadExit(script[used], |run.rest|, Silence(script[..used]), threshold)
  {
  }

  lemma NothingRead(held: Bytes, script: seq<Read>, i: nat)
    requires i <= |script| && QuietFrom(script, 0) && held == []
    ensures DecodeStream(DataOf(held, script[..i])) == Run([], None, WaitingForHeaders, [])
  {
    QuietTail(held, script, 0, i);
  }

  lemma QuietRound(held: Bytes, script: seq<Read>, threshold: nat, used: nat)
    requires used < |script| && QuietFrom(script, 0) && held == []
    ensures var exit := ReadExit(TimedOut, 0, Silence(script[..used]), threshold);
      Round(held, script, threshold, None, used) == Handled(Announced(exit), exit)
  {
    NothingRead(held, script, used);
  }

  /** With the threshold at one read timer and nothing arriving, the second timed-out
      read publishes that the heartbeat expired. */
  lemma HeartbeatExample(held: Bytes, script: seq<Read>, r: Outcome)
    requires held == [] && script == [TimedOut, TimedOut]
    requires r == Outcome(Handled([Publish(HeartbeatExpired)], Published(HeartbeatExpired)), 1)
    ensures Explains(held, script, READ_TIMER_MS, None, r)
  {
    QuietRound(held, script, READ_TIMER_MS, 0);
    QuietRound(held, script, READ_TIMER_MS, 1);
    ScriptStep(held, script, 0);
    assert Silence(script[..0]) == 0;
    assert GoesOn(held, script, READ_TIMER_MS, None, 0);
  }
}
