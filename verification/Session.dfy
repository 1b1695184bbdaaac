/** One connection as a whole: the reader works on the stream, the event queue on
    what the reader dispatches, the pending slot on what it routes. Here are the
    statements about what the consumer and the callers get from a stream. */
module Session {
  import opened Text
  import opened Framing
  import opened Event
  import opened PlainEvents
  import opened EndToEnd
  import Reader = ReaderLoop
  import Queue = EventQueue
  import Slot = CommandSlot

  // ---- Events and replies of a stream, and of what the reader did ----

  function EventsOf(ms: seq<Message>): seq<Message> {
    if ms == [] then []
    else EventsOf(ms[..|ms| - 1]) + (if Reader.IsEvent(ms[|ms| - 1]) then [ms[|ms| - 1]] else [])
  }

  function RepliesOf(ms: seq<Message>): seq<Message> {
    if ms == [] then []
    else RepliesOf(ms[..|ms| - 1]) + (if Reader.IsReply(ms[|ms| - 1]) then [ms[|ms| - 1]] else [])
  }

  function Dispatched(log: seq<Reader.Effect>): seq<Message> {
    if log == [] then []
    else Dispatched(log[..|log| - 1]) + (if log[|log| - 1].Dispatch? then [log[|log| - 1].message] else [])
  }

  function Routed(log: seq<Reader.Effect>): seq<Message> {
    if log == [] then []
    else Routed(log[..|log| - 1]) + (if log[|log| - 1].Route? then [log[|log| - 1].message] else [])
  }

  lemma AddEffect(log: seq<Reader.Effect>, e: Reader.Effect)
    ensures Dispatched(log + [e]) == Dispatched(log) + (if e.Dispatch? then [e.message] else [])
    ensures Routed(log + [e]) == Routed(log) + (if e.Route? then [e.message] else [])
    ensures Reader.Count(log + [e]) == Reader.Count(log) + (if e.Dispatch? then 1 else 0)
  {
    assert (log + [e])[..|log|] == log;
  }

  lemma AddEffects(log: seq<Reader.Effect>, m: Message)
    ensures var log' := log + Reader.EffectOf(m);
      && Dispatched(log') == Dispatched(log) + (if Reader.IsEvent(m) then [m] else [])
      && Routed(log') == Routed(log) + (if Reader.IsReply(m) then [m] else [])
      && Reader.Count(log') == Reader.Count(log) + (if Reader.IsEvent(m) then 1 else 0)
  {
    AddEffect(log, Reader.Dispatch(m));
    AddEffect(log, Reader.Route(m));
    assert log + [] == log;
  }

  lemma {:induction false} EffectsHold(ms: seq<Message>)
    ensures Dispatched(Reader.EffectsOf(ms)) == EventsOf(ms)
    ensures Routed(Reader.EffectsOf(ms)) == RepliesOf(ms)
    ensures Reader.Count(Reader.EffectsOf(ms)) == |EventsOf(ms)|
    decreases |ms|
  {
    if ms != [] {
      EffectsHold(ms[..|ms| - 1]);
      AddEffects(Reader.EffectsOf(ms[..|ms| - 1]), ms[|ms| - 1]);
    }
  }

  lemma AnnouncingAddsNone(log: seq<Reader.Effect>, exit: Reader.Exit)
    ensures var log' := log + Reader.Announced(exit);
      Dispatched(log') == Dispatched(log) && Routed(log') == Routed(log)
  {
    if exit.Published? {
      AddEffect(log, Reader.Publish(exit.reason));
    } else {
      assert log + [] == log;
    }
  }

  lemma {:induction false} OfPrefix(ms: seq<Message>, t: nat)
    requires t <= |ms|
    ensures EventsOf(ms[..t]) <= EventsOf(ms) && RepliesOf(ms[..t]) <= RepliesOf(ms)
    decreases |ms|
  {
    if t < |ms| {
      OfPrefix(ms[..|ms| - 1], t);
      assert ms[..|ms| - 1][..t] == ms[..t];
    } else {
      assert ms[..t] == ms;
    }
  }

  /** The messages of the whole stream that a script carries. */
  function StreamOf(held: Bytes, script: seq<Reader.Read>): seq<Message> {
    DecodeStream(Reader.DataOf(held, script)).messages
  }

  lemma WholeScript(held: Bytes, script: seq<Reader.Read>)
    ensures Reader.MessagesIn(held, script, |script|) == StreamOf(held, script)
  {
    assert script[..|script|] == script;
  }

  /** What the reader dispatches are the first events of the stream, what it routes
      its first replies; all of them if nothing ended the loop. */
  lemma LogFollowsStream(held: Bytes, script: seq<Reader.Read>, threshold: nat, closesAt: Option<nat>,
                         r: Reader.Outcome)
    returns (t: nat)
    requires Reader.Explains(held, script, threshold, closesAt, r)
    ensures var ms := StreamOf(held, script);
      && t <= |ms|
      && Dispatched(r.handled.log) == EventsOf(ms[..t]) <= EventsOf(ms)
      && Routed(r.handled.log) == RepliesOf(ms[..t]) <= RepliesOf(ms)
      && Ends(ms, t, closesAt, r.handled.exit)
      && (r.handled.exit.Running? ==> t == |ms|)
  {
    WholeScript(held, script);
    t := Reader.HandledFromStream(held, script, threshold, closesAt, r);
    var ms := StreamOf(held, script);
    EffectsHold(ms[..t]);
    AnnouncingAddsNone(Reader.EffectsOf(ms[..t]), r.handled.exit);
    OfPrefix(ms, t);
  }

  /** The reader stopped at message `t`, or had no message to stop at. */
  predicate Ends(ms: seq<Message>, t: nat, closesAt: Option<nat>, exit: Reader.Exit)
    requires t <= |ms|
  {
    if Reader.ByMessage(exit)
    then Reader.FirstTerminating(ms, t, closesAt) && exit == Reader.MessageExit(ms[t])
    else Reader.NoneTerminates(ms, t, closesAt)
  }

  // ---- From the stream to the consumer ----

  /** The first dispatch that the queue answers with "closed", if there is one. */
  function Refusal<T>(queueSize: nat, ops: seq<Queue.Op<T>>): Option<nat> {
    var accepted := |Queue.Accepted(Queue.Fresh(queueSize), ops)|;
    if accepted < |Queue.Dispatched(ops)| then Some(accepted) else None
  }

  function Items<T>(item: Message -> T, ms: seq<Message>): (items: seq<T>)
    ensures |items| == |ms| && forall i | 0 <= i < |ms| :: items[i] == item(ms[i])
  {
    seq(|ms|, i requires 0 <= i < |ms| => item(ms[i]))
  }

  /** The queue is given what the reader dispatches, each message as the item that
      is made of it, with one more item if the reader ended on a closed channel. The
      consumer acts as it likes. */
  predicate Offers<T(==)>(item: Message -> T, h: Reader.Handled, ops: seq<Queue.Op<T>>) {
    var items := Items(item, Dispatched(h.log));
    items <= Queue.Dispatched(ops) &&
    |Queue.Dispatched(ops)| == |items| + (if h.exit.ChannelClosed? then 1 else 0)
  }

  /** Reader and queue are connected: the queue gets what the reader offers, and
      the reader finds the channel closed when the queue says so. */
  ghost predicate Connected<T>(held: Bytes, script: seq<Reader.Read>, threshold: nat, r: Reader.Outcome,
                               queueSize: nat, item: Message -> T, ops: seq<Queue.Op<T>>) {
    && Reader.Explains(held, script, threshold, Refusal(queueSize, ops), r)
    && Offers(item, r.handled, ops)
  }

  /** Every event has its number. */
  lemma {:induction false} NumberedEvent(ms: seq<Message>, k: nat) returns (i: nat)
    requires k < |EventsOf(ms)|
    ensures i < |ms| && Reader.IsEvent(ms[i]) && |EventsOf(ms[..i])| == k
    decreases |ms|
  {
    var before := ms[..|ms| - 1];
    if k < |EventsOf(before)| {
      i := NumberedEvent(before, k);
      assert before[..i] == ms[..i];
    } else {
      i := |ms| - 1;
    }
  }

  /** If no message before `t` ended the run, none of their events was refused. */
  lemma NotRefusedBefore(ms: seq<Message>, t: nat, k: nat)
    requires t <= |ms| && Reader.NoneTerminates(ms, t, Some(k))
    ensures |EventsOf(ms[..t])| <= k
  {
    if k < |EventsOf(ms[..t])| {
      var i := NumberedEvent(ms[..t], k);
      assert ms[..t][..i] == ms[..i];
      EffectsHold(ms[..i]);
      assert Reader.Terminates(ms, i, Some(k));
    }
  }

  /** The queue accepts exactly what the reader believes it accepted. */
  lemma AcceptedIsDispatched<T>(held: Bytes, script: seq<Reader.Read>, threshold: nat, r: Reader.Outcome,
                                queueSize: nat, item: Message -> T, ops: seq<Queue.Op<T>>)
    requires Connected(held, script, threshold, r, queueSize, item, ops)
    ensures Queue.Accepted(Queue.Fresh(queueSize), ops) == Items(item, Dispatched(r.handled.log))
  {
    var closesAt := Refusal(queueSize, ops);
    var t := LogFollowsStream(held, script, threshold, closesAt, r);
    Queue.AcceptedFirst(queueSize, ops);
    AcceptedCount(StreamOf(held, script), t, closesAt, r.handled.exit);
  }

  lemma AcceptedCount(ms: seq<Message>, t: nat, closesAt: Option<nat>, exit: Reader.Exit)
    requires t <= |ms| && Ends(ms, t, closesAt, exit)
    ensures closesAt.Some? ==> |EventsOf(ms[..t])| <= closesAt.value
    ensures exit.ChannelClosed? ==> closesAt == Some(|EventsOf(ms[..t])|)
  {
    if closesAt.Some? {
      NotRefusedBefore(ms, t, closesAt.value);
    }
    EffectsHold(ms[..t]);
  }

  /** What the consumer gets from a stream, however the reads cut it and however
      the consumer acts: received then queued are the entries let in, in order; the
      items among them are some of the first events of the stream, in their order;
      those left out are as many as the drop counter says. */
  lemma ConsumerReceives<T>(held: Bytes, script: seq<Reader.Read>, threshold: nat, r: Reader.Outcome,
                            queueSize: nat, item: Message -> T, ops: seq<Queue.Op<T>>) returns (n: nat)
    requires Connected(held, script, threshold, r, queueSize, item, ops)
    ensures var p := Queue.Run(Queue.Fresh(queueSize), ops);
      var events := Items(item, EventsOf(StreamOf(held, script)));
      && n == |Dispatched(r.handled.log)| <= |events|
      && Queue.Subsequence(Queue.ItemsIn(p.received + p.queue), events[..n])
      && Queue.ItemsIn(p.received) <= Queue.ItemsIn(p.received + p.queue)
      && n == |Queue.ItemsIn(p.received + p.queue)| + p.dropped
  {
    n := |Dispatched(r.handled.log)|;
    var t := LogFollowsStream(held, script, threshold, Refusal(queueSize, ops), r);
    AcceptedIsDispatched(held, script, threshold, r, queueSize, item, ops);
    FirstItems(item, Dispatched(r.handled.log), EventsOf(StreamOf(held, script)));
    QueueDelivers(queueSize, ops);
  }

  lemma FirstItems<T>(item: Message -> T, a: seq<Message>, b: seq<Message>)
    requires a <= b
    ensures Items(item, a) == Items(item, b)[..|a|]
  {
  }

  lemma QueueDelivers<T>(queueSize: nat, ops: seq<Queue.Op<T>>)
    ensures var p := Queue.Run(Queue.Fresh(queueSize), ops);
      var accepted := Queue.Accepted(Queue.Fresh(queueSize), ops);
      && Queue.Subsequence(Queue.ItemsIn(p.received + p.queue), accepted)
      && Queue.ItemsIn(p.received) <= Queue.ItemsIn(p.received + p.queue)
      && |accepted| == |Queue.ItemsIn(p.received + p.queue)| + p.dropped
  {
    Queue.RunKeeps(queueSize, ops);
    var p := Queue.Run(Queue.Fresh(queueSize), ops);
    Queue.KeptAndDropped(p.log);
    Queue.EntriesHoldKept(p.log);
    Queue.ItemsOfPrefix(p.received, p.queue);
  }

  /** Notices stand exactly where events of the stream are missing: every item
      entry is the event of the stream at its place, and two items are neighbours in
      the stream exactly if no notice stands between them, when nothing is received
      between the two sends of a dispatch. */
  lemma GapsInTheStream<T>(held: Bytes, script: seq<Reader.Read>, threshold: nat, r: Reader.Outcome,
                           queueSize: nat, item: Message -> T, ops: seq<Queue.Op<T>>)
    requires Connected(held, script, threshold, r, queueSize, item, ops) && Queue.Quiet(ops)
    ensures var p := Queue.Run(Queue.Fresh(queueSize), ops);
      var es := p.received + p.queue;
      && |Queue.Places(p.log)| == |es|
      && Queue.WellPlaced(es, Queue.Places(p.log), Items(item, EventsOf(StreamOf(held, script))))
      && Queue.GapsAreMarked(es, Queue.Places(p.log))
      && Queue.EndIsMarked(es, Queue.Places(p.log), p.overflow, |Dispatched(r.handled.log)|)
  {
    var t := LogFollowsStream(held, script, threshold, Refusal(queueSize, ops), r);
    AcceptedIsDispatched(held, script, threshold, r, queueSize, item, ops);
    FirstItems(item, Dispatched(r.handled.log), EventsOf(StreamOf(held, script)));
    Queue.GapsAtTheConsumer(queueSize, ops);
    var p := Queue.Run(Queue.Fresh(queueSize), ops);
    PlacedInMore(p.received + p.queue, Queue.Places(p.log), Items(item, EventsOf(StreamOf(held, script))),
      |Dispatched(r.handled.log)|);
  }

  lemma PlacedInMore<T>(es: seq<Queue.Entry<T>>, places: seq<nat>, items: seq<T>, n: nat)
    requires n <= |items| && |places| == |es| && Queue.WellPlaced(es, places, items[..n])
    ensures Queue.WellPlaced(es, places, items)
  {
  }

  // ---- From the server's events to the consumer ----

  /** `parse_event` for the plain format. */
  function ItemOf(types: TypeTable): Message -> Result<EventValue, EventError> {
    m => ParsePlainEvent(types, m)
  }

  function Sent(types: TypeTable, events: seq<EventValue>): (items: seq<Result<EventValue, EventError>>)
    ensures |items| == |events| && forall i | 0 <= i < |events| :: items[i] == Ok(Normal(types, events[i]))
  {
    seq(|events|, i requires 0 <= i < |events| => Ok(Normal(types, events[i])))
  }

  lemma {:induction false} AllAreEvents(ms: seq<Message>)
    requires forall i | 0 <= i < |ms| :: Reader.IsEvent(ms[i])
    ensures EventsOf(ms) == ms
  {
    if ms != [] {
      AllAreEvents(ms[..|ms| - 1]);
    }
  }

  lemma ItemsAreSent(types: TypeTable, events: seq<EventValue>, ms: seq<Message>)
    requires |ms| == |events|
    requires forall i | 0 <= i < |events| :: ParsePlainEvent(types, ms[i]) == Ok(Normal(types, events[i]))
    ensures Items(ItemOf(types), ms) == Sent(types, events)
  {
    forall i | 0 <= i < |ms| ensures ItemOf(types)(ms[i]) == Sent(types, events)[i] {
    }
  }

  lemma MessagesAreEvents(bodies: seq<Bytes>)
    ensures EventsOf(Messages(bodies)) == Messages(bodies)
  {
    AllAreEvents(Messages(bodies));
  }

  /** The stream of a list of printed events holds these events. */
  lemma StreamHoldsEvents(types: TypeTable, events: seq<EventValue>, script: seq<Reader.Read>)
    requires forall i | 0 <= i < |events| :: Transmissible(events[i])
    requires Reader.DataOf([], script) == Stream(PlainBodies(events))
    ensures Items(ItemOf(types), EventsOf(StreamOf([], script))) == Sent(types, events)
  {
    var ms := Messages(PlainBodies(events));
    BodiesAreSendable(events);
    StreamDecodes(PlainBodies(events));
    MessagesAreEvents(PlainBodies(events));
    forall i | 0 <= i < |events| ensures ParsePlainEvent(types, ms[i]) == Ok(Normal(types, events[i])) {
      MessagesParse(types, events, i);
    }
    ItemsAreSent(types, events, ms);
  }

  /** From end to end: of any list of events, printed, enveloped, sent as one stream,
      read in any pieces and dispatched into a queue of any size whose consumer acts
      at any moment, the consumer gets an order-preserving selection, each event in
      its normal form, and the drop counter says how many are missing. With room for
      all of them and nothing ending the loop, it gets every one. */
  lemma EventsReachTheConsumer(types: TypeTable, events: seq<EventValue>, script: seq<Reader.Read>, threshold: nat,
                               r: Reader.Outcome, queueSize: nat,
                               ops: seq<Queue.Op<Result<EventValue, EventError>>>) returns (n: nat)
    requires forall i | 0 <= i < |events| :: Transmissible(events[i])
    requires Reader.DataOf([], script) == Stream(PlainBodies(events))
    requires Connected([], script, threshold, r, queueSize, ItemOf(types), ops)
    ensures var p := Queue.Run(Queue.Fresh(queueSize), ops);
      && n <= |events| && (r.handled.exit.Running? ==> n == |events|)
      && Queue.Subsequence(Queue.ItemsIn(p.received + p.queue), Sent(types, events)[..n])
      && n == |Queue.ItemsIn(p.received + p.queue)| + p.dropped
      && (r.handled.exit.Running? && |events| <= queueSize ==>
            p.dropped == 0 && Queue.ItemsIn(p.received + p.queue) == Sent(types, events))
  {
    StreamHoldsEvents(types, events, script);
    n := ConsumerReceives([], script, threshold, r, queueSize, ItemOf(types), ops);
    AllDispatched([], script, threshold, Refusal(queueSize, ops), r);
    if r.handled.exit.Running? && |events| <= queueSize {
      NothingMissing(queueSize, ops, Sent(types, events));
    }
  }

  /** If nothing ended the loop, every event of the stream was dispatched. */
  lemma AllDispatched(held: Bytes, script: seq<Reader.Read>, threshold: nat, closesAt: Option<nat>, r: Reader.Outcome)
    requires Reader.Explains(held, script, threshold, closesAt, r)
    ensures r.handled.exit.Running? ==> |Dispatched(r.handled.log)| == |EventsOf(StreamOf(held, script))|
  {
    var t := LogFollowsStream(held, script, threshold, closesAt, r);
    var ms := StreamOf(held, script);
    assert ms[..|ms|] == ms;
  }

  lemma NothingMissing<T>(queueSize: nat, ops: seq<Queue.Op<T>>, items: seq<T>)
    requires var p := Queue.Run(Queue.Fresh(queueSize), ops);
      && Queue.Subsequence(Queue.ItemsIn(p.received + p.queue), items[..|items|])
      && |items| == |Queue.ItemsIn(p.received + p.queue)| + p.dropped
    requires |Queue.Dispatched(ops)| <= queueSize
    ensures var p := Queue.Run(Queue.Fresh(queueSize), ops);
      p.dropped == 0 && Queue.ItemsIn(p.received + p.queue) == items
  {
    Queue.EnoughRoom(queueSize, ops);
    Queue.RunKeeps(queueSize, ops);
    assert items[..|items|] == items;
    var p := Queue.Run(Queue.Fresh(queueSize), ops);
    SelectionOfAll(Queue.ItemsIn(p.received + p.queue), items);
  }

  lemma {:induction false} SelectionOfAll<T>(a: seq<T>, b: seq<T>)
    requires Queue.Subsequence(a, b) && |a| >= |b|
    ensures a == b
    decreases |b|
  {
    if b != [] && a != [] {
      if a[|a| - 1] == b[|b| - 1] {
        SelectionOfAll(a[..|a| - 1], b[..|b| - 1]);
      } else {
        SelectionOfAll(a, b[..|b| - 1]);
      }
    }
  }

  // ---- From the stream to the callers ----

  /** The slot gets the replies that the reader routes, in their order. */
  predicate RepliesComeFrom(log: seq<Reader.Effect>, s: Slot.State) {
    s.received <= |Routed(log)|
  }

  /** The message that an answered call was given. */
  function AnswerOf(log: seq<Reader.Effect>, s: Slot.State, c: Slot.CallId): Option<Message> {
    var p := Slot.PhaseOf(s, c);
    if p.Done? && p.outcome.Replied? && p.outcome.reply < |Routed(log)|
    then Some(Routed(log)[p.outcome.reply]) else None
  }

  /** Every answered call was given a reply of the stream, the first to be read after
      its slot was set, and no two calls the same one. */
  lemma CallerGetsAReplyOfTheStream(
      held: Bytes, script: seq<Reader.Read>, threshold: nat, closesAt: Option<nat>, r: Reader.Outcome,
      events: seq<Slot.Event>, c: Slot.CallId)
    requires Reader.Explains(held, script, threshold, closesAt, r)
    requires RepliesComeFrom(r.handled.log, Slot.Run(events))
    requires var p := Slot.PhaseOf(Slot.Run(events), c); p.Done? && p.outcome.Replied?
    ensures var s := Slot.Run(events);
      var k := Slot.PhaseOf(s, c).outcome.reply;
      var replies := RepliesOf(StreamOf(held, script));
      && k < |replies| && c in s.armedAt && k == s.armedAt[c]
      && AnswerOf(r.handled.log, s, c) == Some(replies[k])
      && forall d | d != c && Slot.PhaseOf(s, d).Done? && Slot.PhaseOf(s, d).outcome.Replied? ::
           Slot.PhaseOf(s, d).outcome.reply != k
  {
    var t := LogFollowsStream(held, script, threshold, closesAt, r);
    AnswersAreDistinct(events, c);
  }

  lemma AnswersAreDistinct(events: seq<Slot.Event>, c: Slot.CallId)
    requires var p := Slot.PhaseOf(Slot.Run(events), c); p.Done? && p.outcome.Replied?
    ensures var s := Slot.Run(events);
      var k := Slot.PhaseOf(s, c).outcome.reply;
      && k < s.received && c in s.armedAt && k == s.armedAt[c]
      && forall d | d != c && Slot.PhaseOf(s, d).Done? && Slot.PhaseOf(s, d).outcome.Replied? ::
           Slot.PhaseOf(s, d).outcome.reply != k
  {
    Slot.RunKeeps(events);
    var s := Slot.Run(events);
    assert Slot.CallOk(s, c);
    forall d | d != c && Slot.PhaseOf(s, d).Done? && Slot.PhaseOf(s, d).outcome.Replied?
      ensures Slot.PhaseOf(s, d).outcome.reply != Slot.PhaseOf(s, c).outcome.reply
    {
      assert Slot.CallOk(s, d);
    }
  }

  /** With a server that answers in order and no call given up with its command out,
      the call that wrote command number k is given reply number k of the stream. */
  lemma CallerGetsItsOwnReply(
      held: Bytes, script: seq<Reader.Read>, threshold: nat, closesAt: Option<nat>, r: Reader.Outcome,
      events: seq<Slot.Event>, c: Slot.CallId)
    requires Reader.Explains(held, script, threshold, closesAt, r)
    requires RepliesComeFrom(r.handled.log, Slot.OrderlyRun(events)) && Slot.OrderlyRun(events).losses == 0
    requires var p := Slot.PhaseOf(Slot.OrderlyRun(events), c); p.Done? && p.outcome.Replied?
    ensures var s := Slot.OrderlyRun(events);
      var replies := RepliesOf(StreamOf(held, script));
      && c in s.position && s.position[c] < |s.written| && s.written[s.position[c]] == c
      && s.position[c] < |replies|
      && AnswerOf(r.handled.log, s, c) == Some(replies[s.position[c]])
  {
    var t := LogFollowsStream(held, script, threshold, closesAt, r);
    OwnReplyNumber(events, c);
  }

  lemma OwnReplyNumber(events: seq<Slot.Event>, c: Slot.CallId)
    requires Slot.OrderlyRun(events).losses == 0
    requires var p := Slot.PhaseOf(Slot.OrderlyRun(events), c); p.Done? && p.outcome.Replied?
    ensures var s := Slot.OrderlyRun(events);
      && c in s.position && s.position[c] < |s.written| && s.written[s.position[c]] == c
      && Slot.PhaseOf(s, c).outcome.reply == s.position[c] < s.received
  {
    Slot.RepliesLagByLosses(events, c);
    Slot.OrderlyRunKeeps(events, c);
    assert Slot.CallOk(Slot.OrderlyRun(events), c);
  }
}
