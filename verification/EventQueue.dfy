/** Delivery of events through a bounded queue that drops when full: the
    overflow flag, the drop counter and the QueueFull notices, with a consumer
    that may act at any moment, also between the two sends of one dispatch. */
module EventQueue {
  /** What travels through the queue: an event result, or a QueueFull error. */
  datatype Entry<T> = Item(item: T) | Notice

  /** History: what became of each send, in order. */
  datatype Mark<T> = Enqueued(item: T) | Dropped(item: T) | Noticed

  /** The queue and the flags beside it. `received` and `log` are history. */
  datatype Path<T> = Path(
    capacity: nat,
    queue: seq<Entry<T>>,
    open: bool,
    overflow: bool,
    dropped: nat,
    received: seq<Entry<T>>,
    log: seq<Mark<T>>)

  /** The queue holds at least one entry, whatever size is asked for. */
  function Fresh<T>(queueSize: nat): Path<T> {
    Path(if queueSize > 1 then queueSize else 1, [], true, false, 0, [], [])
  }

  // ---- One step of the consumer ----

  datatype Act = Receive | Hangup

  function Consume<T>(p: Path<T>, act: Act): Path<T> {
    match act
    case Hangup => p.(open := false)
    case Receive =>
      if p.open && p.queue != []
      then p.(queue := p.queue[1..], received := p.received + [p.queue[0]])
      else p
  }

  function ConsumeAll<T>(p: Path<T>, acts: seq<Act>): Path<T>
    decreases |acts|
  {
    if acts == [] then p else ConsumeAll(Consume(p, acts[0]), acts[1..])
  }

  // ---- One dispatch ----

  /** First send: a notice, if one is owed. False when the channel is closed. */
  function OfferNotice<T>(p: Path<T>): (Path<T>, bool) {
    if !p.overflow then (p, true)
    else if !p.open then (p, false)
    else if |p.queue| < p.capacity
    then (p.(queue := p.queue + [Notice], overflow := false, log := p.log + [Noticed]), true)
    else (p, true)
  }

  /** Second send: the item, counted as dropped when the queue is full. */
  function OfferItem<T>(p: Path<T>, item: T): (Path<T>, bool) {
    if !p.open then (p, false)
    else if |p.queue| < p.capacity
    then (p.(queue := p.queue + [Item(item)], log := p.log + [Enqueued(item)]), true)
    else (p.(overflow := true, dropped := p.dropped + 1, log := p.log + [Dropped(item)]), true)
  }

  /** `dispatch_event`, with what the consumer does between the two sends. */
  function Dispatch<T>(p: Path<T>, item: T, between: seq<Act>): (Path<T>, bool) {
    var (p1, ok) := OfferNotice(p);
    if !ok then (p1, false) else OfferItem(ConsumeAll(p1, between), item)
  }

  // ---- Runs ----

  datatype Op<T> = Send(item: T, between: seq<Act>) | Consumer(act: Act)

  function Step<T>(p: Path<T>, op: Op<T>): Path<T> {
    match op
    case Send(item, between) => Dispatch(p, item, between).0
    case Consumer(act) => Consume(p, act)
  }

  function Run<T>(p: Path<T>, ops: seq<Op<T>>): Path<T> {
    if ops == [] then p else Step(Run(p, ops[..|ops| - 1]), ops[|ops| - 1])
  }

  /** The items handed to `dispatch_event`, in order. */
  function Dispatched<T>(ops: seq<Op<T>>): seq<T> {
    if ops == [] then []
    else
      match ops[|ops| - 1]
      case Send(item, _) => Dispatched(ops[..|ops| - 1]) + [item]
      case Consumer(_) => Dispatched(ops[..|ops| - 1])
  }

  /** Those that `dispatch_event` answered with true: it found the channel open. */
  function Accepted<T>(p: Path<T>, ops: seq<Op<T>>): seq<T> {
    if ops == [] then []
    else
      var before := Accepted(p, ops[..|ops| - 1]);
      match ops[|ops| - 1]
      case Send(item, between) =>
        if Dispatch(Run(p, ops[..|ops| - 1]), item, between).1 then before + [item] else before
      case Consumer(_) => before
  }

  // ---- Reading the history ----

  /** The entries that entered the queue. */
  function Entries<T>(log: seq<Mark<T>>): seq<Entry<T>> {
    if log == [] then []
    else
      var before := Entries(log[..|log| - 1]);
      match log[|log| - 1]
      case Enqueued(item) => before + [Item(item)]
      case Noticed => before + [Notice]
      case Dropped(_) => before
  }

  /** The items that were decided upon, kept or dropped. */
  function Decided<T>(log: seq<Mark<T>>): seq<T> {
    if log == [] then []
    else
      var before := Decided(log[..|log| - 1]);
      match log[|log| - 1]
      case Enqueued(item) => before + [item]
      case Dropped(item) => before + [item]
      case Noticed => before
  }

  /** The items that entered the queue. */
  function Kept<T>(log: seq<Mark<T>>): seq<T> {
    if log == [] then []
    else
      var before := Kept(log[..|log| - 1]);
      match log[|log| - 1]
      case Enqueued(item) => before + [item]
      case _ => before
  }

  function Drops<T>(log: seq<Mark<T>>): nat {
    if log == [] then 0
    else Drops(log[..|log| - 1]) + (if log[|log| - 1].Dropped? then 1 else 0)
  }

  /** A drop has happened since the last notice. */
  predicate Owed<T>(log: seq<Mark<T>>) {
    log != [] &&
    match log[|log| - 1]
    case Dropped(_) => true
    case Noticed => false
    case Enqueued(_) => Owed(log[..|log| - 1])
  }

  /** `a` is what is left of `b` when some elements are taken out. */
  predicate Subsequence<T(==)>(a: seq<T>, b: seq<T>) {
    a == [] ||
    (b != [] &&
     if a[|a| - 1] == b[|b| - 1]
     then Subsequence(a[..|a| - 1], b[..|b| - 1])
     else Subsequence(a, b[..|b| - 1]))
  }

  // ---- What every step keeps ----

  predicate NoticesAreOwed<T>(log: seq<Mark<T>>) {
    forall i | 0 <= i < |log| && log[i].Noticed? :: Owed(log[..i])
  }

  /** No item is enqueued while a notice is owed. */
  predicate NoItemWhileOwed<T>(log: seq<Mark<T>>) {
    forall i | 0 <= i < |log| && log[i].Enqueued? :: !Owed(log[..i])
  }

  ghost predicate Inv<T>(p: Path<T>) {
    && p.capacity >= 1
    && |p.queue| <= p.capacity
    && p.received + p.queue == Entries(p.log)
    && p.dropped == Drops(p.log)
    && p.overflow == Owed(p.log)
    && NoticesAreOwed(p.log)
  }

  lemma LogStep<T>(log: seq<Mark<T>>, mark: Mark<T>)
    ensures (log + [mark])[..|log|] == log
    ensures NoticesAreOwed(log) && (mark.Noticed? ==> Owed(log)) ==> NoticesAreOwed(log + [mark])
    ensures NoItemWhileOwed(log) && (mark.Enqueued? ==> !Owed(log)) ==> NoItemWhileOwed(log + [mark])
  {
    assert (log + [mark])[..|log|] == log;
    assert forall i | 0 <= i < |log| :: (log + [mark])[..i] == log[..i];
  }

  lemma ConsumeKeeps<T>(p: Path<T>, act: Act)
    requires Inv(p)
    ensures var q := Consume(p, act);
      Inv(q) && q.log == p.log && q.capacity == p.capacity && (q.open ==> p.open)
  {
    if act.Receive? && p.open && p.queue != [] {
      assert p.queue == [p.queue[0]] + p.queue[1..];
      assert (p.received + [p.queue[0]]) + p.queue[1..] == p.received + p.queue;
    }
  }

  lemma {:induction false} ConsumeAllKeeps<T>(p: Path<T>, acts: seq<Act>)
    requires Inv(p)
    ensures var q := ConsumeAll(p, acts);
      && Inv(q) && q.log == p.log && q.capacity == p.capacity && (q.open ==> p.open)
      && |q.queue| <= |p.queue|
    decreases |acts|
  {
    if acts != [] {
      ConsumeKeeps(p, acts[0]);
      ConsumeAllKeeps(Consume(p, acts[0]), acts[1..]);
    }
  }

  lemma OfferNoticeKeeps<T>(p: Path<T>)
    requires Inv(p)
    ensures Inv(OfferNotice(p).0) && Decided(OfferNotice(p).0.log) == Decided(p.log)
    ensures OfferNotice(p).0.open == p.open && OfferNotice(p).0.capacity == p.capacity
  {
    LogStep(p.log, Noticed);
    assert p.received + (p.queue + [Notice]) == (p.received + p.queue) + [Notice];
  }

  lemma EnqueueKeeps<T>(p: Path<T>, item: T)
    requires Inv(p) && p.open && |p.queue| < p.capacity
    ensures Inv(OfferItem(p, item).0) && Decided(OfferItem(p, item).0.log) == Decided(p.log) + [item]
  {
    LogStep(p.log, Enqueued(item));
    assert p.received + (p.queue + [Item(item)]) == (p.received + p.queue) + [Item(item)];
  }

  lemma DropKeeps<T>(p: Path<T>, item: T)
    requires Inv(p) && p.open && |p.queue| == p.capacity
    ensures Inv(OfferItem(p, item).0) && Decided(OfferItem(p, item).0.log) == Decided(p.log) + [item]
  {
    LogStep(p.log, Dropped(item));
  }

  lemma OfferItemKeeps<T>(p: Path<T>, item: T)
    requires Inv(p)
    ensures Inv(OfferItem(p, item).0)
    ensures Decided(OfferItem(p, item).0.log) == if p.open then Decided(p.log) + [item] else Decided(p.log)
    ensures OfferItem(p, item).0.open == p.open == OfferItem(p, item).1
  {
    if p.open {
      if |p.queue| < p.capacity {
        EnqueueKeeps(p, item);
      } else {
        DropKeeps(p, item);
      }
    }
  }

  lemma StepKeeps<T>(p: Path<T>, op: Op<T>)
    requires Inv(p)
    ensures Inv(Step(p, op))
    ensures Step(p, op).open ==> p.open
    ensures Step(p, op).open && op.Send? ==> Decided(Step(p, op).log) == Decided(p.log) + [op.item]
    ensures op.Consumer? ==> Decided(Step(p, op).log) == Decided(p.log)
    ensures op.Send? && Dispatch(p, op.item, op.between).1 ==> Decided(Step(p, op).log) == Decided(p.log) + [op.item]
    ensures op.Send? && !Dispatch(p, op.item, op.between).1 ==> Decided(Step(p, op).log) == Decided(p.log)
  {
    match op {
      case Consumer(act) => ConsumeKeeps(p, act);
      case Send(item, between) =>
        OfferNoticeKeeps(p);
        var p1 := OfferNotice(p).0;
        ConsumeAllKeeps(p1, between);
        OfferItemKeeps(ConsumeAll(p1, between), item);
    }
  }

  /** Safety over every run and every interleaving of the consumer: what was
      received followed by what is queued is what was let in, in order; exactly
      the accepted items were decided upon, once and in order, and while the channel
      is open these are all that were dispatched; the flag tells exactly whether a
      drop is still unreported. */
  lemma {:induction false} RunKeeps<T>(queueSize: nat, ops: seq<Op<T>>)
    ensures var p := Run(Fresh<T>(queueSize), ops);
      && Inv(p)
      && Decided(p.log) == Accepted(Fresh<T>(queueSize), ops)
      && (p.open ==> Decided(p.log) == Dispatched(ops))
    decreases |ops|
  {
    if ops != [] {
      RunKeeps(queueSize, ops[..|ops| - 1]);
      StepKeeps(Run(Fresh<T>(queueSize), ops[..|ops| - 1]), ops[|ops| - 1]);
    }
  }

  // ---- Counting ----

  /** Every decided item was kept or dropped, and the kept ones keep their
      order. */
  lemma {:induction false} KeptAndDropped<T>(log: seq<Mark<T>>)
    ensures |Decided(log)| == |Kept(log)| + Drops(log)
    ensures Subsequence(Kept(log), Decided(log))
  {
    if log != [] {
      KeptAndDropped(log[..|log| - 1]);
      if log[|log| - 1].Dropped? {
        SubsequenceGrows(Kept(log), Decided(log[..|log| - 1]), log[|log| - 1].item);
      }
    }
  }

  lemma {:induction false} SubsequenceGrows<T>(a: seq<T>, b: seq<T>, x: T)
    requires Subsequence(a, b)
    ensures Subsequence(a, b + [x])
    decreases |b|, 1
  {
    assert (b + [x])[..|b|] == b;
    if a != [] && a[|a| - 1] == x {
      SubsequenceShrinks(a, b);
    }
  }

  lemma {:induction false} SubsequenceShrinks<T>(a: seq<T>, b: seq<T>)
    requires a != [] && Subsequence(a, b)
    ensures Subsequence(a[..|a| - 1], b)
    decreases |b|, 0
  {
    var b' := b[..|b| - 1];
    if a[|a| - 1] == b[|b| - 1] {
      SubsequenceGrows(a[..|a| - 1], b', b[|b| - 1]);
      assert b == b' + [b[|b| - 1]];
    } else {
      SubsequenceShrinks(a, b');
      SubsequenceGrows(a[..|a| - 1], b', b[|b| - 1]);
      assert b == b' + [b[|b| - 1]];
    }
  }

  /** While the channel is open, the drop counter is exact: dispatched items are
      those let in, in order, and as many more as the counter says. */
  lemma DropCounterIsExact<T>(queueSize: nat, ops: seq<Op<T>>)
    requires Run(Fresh<T>(queueSize), ops).open
    ensures var p := Run(Fresh<T>(queueSize), ops);
      && |Dispatched(ops)| == |Kept(p.log)| + p.dropped
      && Subsequence(Kept(p.log), Dispatched(ops))
  {
    RunKeeps(queueSize, ops);
    KeptAndDropped(Run(Fresh<T>(queueSize), ops).log);
  }

  /** Once a dispatch was refused, all are: those accepted are the first ones, and
      all of them while the channel is open. */
  lemma {:induction false} AcceptedFirst<T>(queueSize: nat, ops: seq<Op<T>>)
    ensures var accepted := Accepted(Fresh<T>(queueSize), ops);
      && accepted <= Dispatched(ops)
      && (accepted != Dispatched(ops) ==> !Run(Fresh<T>(queueSize), ops).open)
    decreases |ops|
  {
    if ops != [] {
      var before, op := ops[..|ops| - 1], ops[|ops| - 1];
      AcceptedFirst(queueSize, before);
      RunKeeps(queueSize, before);
      StepKeeps(Run(Fresh<T>(queueSize), before), op);
      AcceptedStep(Run(Fresh<T>(queueSize), before), op);
    }
  }

  /** A dispatch is answered with true if the channel stays open, and with false
      if it was closed before. */
  lemma AcceptedStep<T>(p: Path<T>, op: Op<T>)
    requires Inv(p)
    ensures op.Send? && !Dispatch(p, op.item, op.between).1 ==> !Step(p, op).open
    ensures op.Send? && !p.open ==> !Dispatch(p, op.item, op.between).1
  {
    if op.Send? {
      OfferNoticeKeeps(p);
      var p1 := OfferNotice(p).0;
      ConsumeAllKeeps(p1, op.between);
      OfferItemKeeps(ConsumeAll(p1, op.between), op.item);
    }
  }

  /** The items among the entries, without the notices. */
  function ItemsIn<T>(es: seq<Entry<T>>): seq<T> {
    if es == [] then []
    else ItemsIn(es[..|es| - 1]) + (if es[|es| - 1].Item? then [es[|es| - 1].item] else [])
  }

  lemma {:induction false} EntriesHoldKept<T>(log: seq<Mark<T>>)
    ensures ItemsIn(Entries(log)) == Kept(log)
  {
    if log != [] {
      EntriesHoldKept(log[..|log| - 1]);
      var before := Entries(log[..|log| - 1]);
      match log[|log| - 1] {
        case Enqueued(item) => assert (before + [Item(item)])[..|before|] == before;
        case Noticed => assert (before + [Notice])[..|before|] == before;
        case Dropped(_) =>
      }
    }
  }

  lemma {:induction false} ItemsOfPrefix<T>(a: seq<Entry<T>>, b: seq<Entry<T>>)
    ensures ItemsIn(a) <= ItemsIn(a + b)
    decreases |b|
  {
    if b == [] {
      assert a + b == a;
    } else {
      var before := b[..|b| - 1];
      ItemsOfPrefix(a, before);
      assert (a + b)[..|a + b| - 1] == a + before;
    }
  }

  /** With room for all of them, every accepted item is let in. */
  lemma {:induction false} EnoughRoom<T>(queueSize: nat, ops: seq<Op<T>>)
    requires |Dispatched(ops)| <= queueSize
    ensures var p := Run(Fresh<T>(queueSize), ops);
      p.capacity >= queueSize && Drops(p.log) == 0 && |Entries(p.log)| <= |Dispatched(ops)|
    decreases |ops|
  {
    if ops != [] {
      var before, op := ops[..|ops| - 1], ops[|ops| - 1];
      EnoughRoom(queueSize, before);
      RunKeeps(queueSize, before);
      RoomStep(Run(Fresh<T>(queueSize), before), op);
    }
  }

  lemma RoomStep<T>(p: Path<T>, op: Op<T>)
    requires Inv(p) && Drops(p.log) == 0
    requires op.Send? ==> |Entries(p.log)| < p.capacity
    ensures var q := Step(p, op);
      && q.capacity == p.capacity && Drops(q.log) == 0
      && |Entries(q.log)| <= |Entries(p.log)| + (if op.Send? then 1 else 0)
  {
    match op {
      case Consumer(act) => ConsumeKeeps(p, act);
      case Send(item, between) =>
        NoDropsOwesNothing(p.log);
        ConsumeAllKeeps(p, between);
        var p1 := ConsumeAll(p, between);
        assert |p.received + p.queue| == |p.received| + |p.queue|;
        LogStep(p1.log, Enqueued(item));
    }
  }

  lemma {:induction false} NoDropsOwesNothing<T>(log: seq<Mark<T>>)
    requires Drops(log) == 0
    ensures !Owed(log)
  {
    if log != [] {
      NoDropsOwesNothing(log[..|log| - 1]);
    }
  }

  // ---- Notices ----

  /** Nothing is owed at `j`, so a drop before it has been answered. */
  lemma {:induction false} NoticeSince<T>(log: seq<Mark<T>>, d: nat, j: nat)
    requires d < j <= |log| && log[d].Dropped? && !Owed(log[..j])
    ensures exists n :: d < n < j && log[n].Noticed?
    decreases j
  {
    assert log[..j][..j - 1] == log[..j - 1];
    if log[j - 1].Enqueued? {
      NoticeSince(log, d, j - 1);
    }
  }

  /** Something is owed at `n` but not at `i`, so there was a drop since. */
  lemma {:induction false} DropSince<T>(log: seq<Mark<T>>, i: nat, n: nat)
    requires i < n <= |log| && log[i].Enqueued? && !Owed(log[..i]) && Owed(log[..n])
    ensures exists d :: i < d < n && log[d].Dropped?
    decreases n
  {
    assert log[..n][..n - 1] == log[..n - 1];
    if log[n - 1].Enqueued? && i < n - 1 {
      DropSince(log, i, n - 1);
    }
  }

  /** Something is owed at `n`: the drop is the last mark of its kind. */
  lemma {:induction false} DropBefore<T>(log: seq<Mark<T>>, n: nat)
    requires n <= |log| && Owed(log[..n])
    ensures exists d :: 0 <= d < n && log[d].Dropped? && forall j | d < j < n :: !log[j].Noticed?
    decreases n
  {
    assert log[..n][..n - 1] == log[..n - 1];
    if log[n - 1].Enqueued? {
      DropBefore(log, n - 1);
      var d :| 0 <= d < n - 1 && log[d].Dropped? && forall j | d < j < n - 1 :: !log[j].Noticed?;
      assert forall j | d < j < n :: !log[j].Noticed?;
    } else {
      assert log[n - 1].Dropped?;
    }
  }

  /** Every drop is reported: after it the flag is set or a notice was let in. */
  lemma DropsAreReported<T>(queueSize: nat, ops: seq<Op<T>>, d: nat)
    requires var p := Run(Fresh<T>(queueSize), ops); d < |p.log| && p.log[d].Dropped?
    ensures var p := Run(Fresh<T>(queueSize), ops);
      p.overflow || exists j :: d < j < |p.log| && p.log[j].Noticed?
  {
    var log := Run(Fresh<T>(queueSize), ops).log;
    RunKeeps(queueSize, ops);
    if !Owed(log) {
      assert log[..|log|] == log;
      NoticeSince(log, d, |log|);
    }
  }

  /** No notice without cause: a notice has a drop before it, with no other
      notice in between. */
  lemma NoticesHaveDrops<T>(queueSize: nat, ops: seq<Op<T>>, i: nat)
    requires var p := Run(Fresh<T>(queueSize), ops); i < |p.log| && p.log[i].Noticed?
    ensures var p := Run(Fresh<T>(queueSize), ops);
      exists d :: 0 <= d < i && p.log[d].Dropped? && forall j | d < j < i :: !p.log[j].Noticed?
  {
    var log := Run(Fresh<T>(queueSize), ops).log;
    RunKeeps(queueSize, ops);
    DropBefore(log, i);
  }

  // ---- Runs in which no receive falls between the two sends ----

  predicate NoReceive(acts: seq<Act>) {
    forall i | 0 <= i < |acts| :: acts[i].Hangup?
  }

  predicate Quiet<T>(ops: seq<Op<T>>) {
    forall i | 0 <= i < |ops| && ops[i].Send? :: NoReceive(ops[i].between)
  }

  lemma {:induction false} NoReceiveKeepsQueue<T>(p: Path<T>, acts: seq<Act>)
    requires NoReceive(acts)
    ensures var q := ConsumeAll(p, acts); q == p || q == p.(open := false)
    decreases |acts|
  {
    if acts != [] {
      NoReceiveKeepsQueue(Consume(p, acts[0]), acts[1..]);
    }
  }

  lemma QuietStep<T>(p: Path<T>, op: Op<T>)
    requires Inv(p) && NoItemWhileOwed(p.log)
    requires op.Send? ==> NoReceive(op.between)
    ensures NoItemWhileOwed(Step(p, op).log)
  {
    match op {
      case Consumer(act) =>
      case Send(item, between) =>
        OfferNoticeKeeps(p);
        LogStep(p.log, Noticed);
        var p1 := OfferNotice(p).0;
        NoReceiveKeepsQueue(p1, between);
        LogStep(p1.log, Enqueued(item));
        LogStep(p1.log, Dropped(item));
    }
  }

  lemma {:induction false} QuietRuns<T>(queueSize: nat, ops: seq<Op<T>>)
    requires Quiet(ops)
    ensures NoItemWhileOwed(Run(Fresh<T>(queueSize), ops).log)
    decreases |ops|
  {
    if ops != [] {
      var before := ops[..|ops| - 1];
      QuietRuns(queueSize, before);
      RunKeeps(queueSize, before);
      QuietStep(Run(Fresh<T>(queueSize), before), ops[|ops| - 1]);
    }
  }

  /** Between two items that were let in, there is a notice exactly if there was
      a drop. */
  lemma NoticesMarkTheGaps<T>(queueSize: nat, ops: seq<Op<T>>, i: nat, j: nat)
    requires Quiet(ops)
    requires var log := Run(Fresh<T>(queueSize), ops).log;
      i < j < |log| && log[i].Enqueued? && log[j].Enqueued?
    ensures var log := Run(Fresh<T>(queueSize), ops).log;
      (exists d :: i < d < j && log[d].Dropped?) <==> (exists n :: i < n < j && log[n].Noticed?)
  {
    var log := Run(Fresh<T>(queueSize), ops).log;
    QuietRuns(queueSize, ops);
    RunKeeps(queueSize, ops);
    if d :| i < d < j && log[d].Dropped? {
      NoticeSince(log, d, j);
    }
    if n :| i < n < j && log[n].Noticed? {
      DropSince(log, i, n);
    }
  }

  // ---- Gaps, as the consumer sees them ----

  /** For every entry, the number of items decided upon before it: the place of an
      item among those dispatched. */
  function Places<T>(log: seq<Mark<T>>): (places: seq<nat>)
    ensures |places| == |Entries(log)|
  {
    if log == [] then []
    else
      var before := log[..|log| - 1];
      if log[|log| - 1].Dropped? then Places(before) else Places(before) + [|Decided(before)|]
  }

  /** The place after that of entry `i`, or the first place. */
  function PlaceAfter(places: seq<nat>, i: int): nat
    requires -1 <= i < |places|
  {
    if i < 0 then 0 else places[i] + 1
  }

  predicate IsItem<T>(es: seq<Entry<T>>, i: int)
    requires -1 <= i < |es|
  {
    i < 0 || es[i].Item?
  }

  predicate OnlyNotices<T>(es: seq<Entry<T>>, i: int, j: nat)
    requires -1 <= i && j <= |es|
  {
    forall k | i < k < j :: es[k].Notice?
  }

  /** Every item entry holds the item dispatched at its place. */
  predicate WellPlaced<T(==)>(es: seq<Entry<T>>, places: seq<nat>, items: seq<T>)
    requires |places| == |es|
  {
    forall i | 0 <= i < |es| && es[i].Item? :: places[i] < |items| && es[i].item == items[places[i]]
  }

  /** Two items with nothing but notices between them (or the first item and the
      start) are neighbours in what was dispatched exactly if there is no notice
      between them. */
  predicate GapsAreMarked<T>(es: seq<Entry<T>>, places: seq<nat>)
    requires |places| == |es|
  {
    forall i, j | -1 <= i < j < |es| && IsItem(es, i) && IsItem(es, j) && OnlyNotices(es, i, j) ::
      j == i + 1 <==> places[j] == PlaceAfter(places, i)
  }

  /** After the last item, something is missing exactly if a notice stands there or
      is owed. */
  predicate EndIsMarked<T>(es: seq<Entry<T>>, places: seq<nat>, owed: bool, n: nat)
    requires |places| == |es|
  {
    forall i | -1 <= i < |es| && IsItem(es, i) && OnlyNotices(es, i, |es|) ::
      && PlaceAfter(places, i) <= n
      && (i == |es| - 1 && !owed <==> n == PlaceAfter(places, i))
  }

  lemma AddNotice<T>(es: seq<Entry<T>>, places: seq<nat>, n: nat)
    requires |places| == |es| && GapsAreMarked(es, places) && EndIsMarked(es, places, true, n)
    ensures GapsAreMarked(es + [Notice], places + [n]) && EndIsMarked(es + [Notice], places + [n], false, n)
  {
    var es', places' := es + [Notice], places + [n];
    forall i, j | -1 <= i < j < |es'| && IsItem(es', i) && IsItem(es', j) && OnlyNotices(es', i, j)
      ensures j == i + 1 <==> places'[j] == PlaceAfter(places', i)
    {
      assert es'[j].Item?;
      OnlyNoticesBefore(es, Notice, i, j);
      assert IsItem(es, i) && IsItem(es, j);
    }
    forall i | -1 <= i < |es'| && IsItem(es', i) && OnlyNotices(es', i, |es'|)
      ensures PlaceAfter(places', i) < n
    {
      OnlyNoticesBefore(es, Notice, i, |es|);
      assert IsItem(es, i);
    }
  }

  lemma AddItem<T>(es: seq<Entry<T>>, places: seq<nat>, n: nat, item: T)
    requires |places| == |es| && GapsAreMarked(es, places) && EndIsMarked(es, places, false, n)
    ensures GapsAreMarked(es + [Item(item)], places + [n]) && EndIsMarked(es + [Item(item)], places + [n], false, n + 1)
  {
    var es', places' := es + [Item(item)], places + [n];
    forall i, j | -1 <= i < j < |es'| && IsItem(es', i) && IsItem(es', j) && OnlyNotices(es', i, j)
      ensures j == i + 1 <==> places'[j] == PlaceAfter(places', i)
    {
      OnlyNoticesBefore(es, Item(item), i, j);
      assert IsItem(es, i) && (j < |es| ==> IsItem(es, j));
    }
    forall i | -1 <= i < |es'| && IsItem(es', i) && OnlyNotices(es', i, |es'|)
      ensures i == |es|
    {
      assert !es'[|es|].Notice?;
    }
  }

  lemma OnlyNoticesBefore<T>(es: seq<Entry<T>>, e: Entry<T>, i: int, j: nat)
    requires -1 <= i && j <= |es| && OnlyNotices(es + [e], i, j)
    ensures OnlyNotices(es, i, j)
  {
    assert forall k | i < k < j :: (es + [e])[k] == es[k];
  }

  lemma AddDrop<T>(es: seq<Entry<T>>, places: seq<nat>, owed: bool, n: nat)
    requires |places| == |es| && EndIsMarked(es, places, owed, n)
    ensures EndIsMarked(es, places, true, n + 1)
  {
  }

  lemma {:induction false} LogGaps<T>(log: seq<Mark<T>>)
    requires NoticesAreOwed(log) && NoItemWhileOwed(log)
    ensures GapsAreMarked(Entries(log), Places(log))
    ensures EndIsMarked(Entries(log), Places(log), Owed(log), |Decided(log)|)
  {
    if log != [] {
      var before, mark := log[..|log| - 1], log[|log| - 1];
      assert log == before + [mark];
      assert forall i | 0 <= i < |before| :: log[..i] == before[..i];
      LogGaps(before);
      match mark {
        case Enqueued(item) => AddItem(Entries(before), Places(before), |Decided(before)|, item);
        case Noticed => AddNotice(Entries(before), Places(before), |Decided(before)|);
        case Dropped(_) => AddDrop(Entries(before), Places(before), Owed(before), |Decided(before)|);
      }
    }
  }

  lemma {:induction false} LogPlaces<T>(log: seq<Mark<T>>)
    ensures WellPlaced(Entries(log), Places(log), Decided(log))
  {
    if log != [] {
      LogPlaces(log[..|log| - 1]);
    }
  }

  /** Whatever the consumer does but receive between the two sends: in what it is
      given, notices stand exactly where items are missing. */
  lemma GapsAtTheConsumer<T>(queueSize: nat, ops: seq<Op<T>>)
    requires Quiet(ops)
    ensures var p := Run(Fresh<T>(queueSize), ops);
      && p.received + p.queue == Entries(p.log)
      && WellPlaced(Entries(p.log), Places(p.log), Accepted(Fresh<T>(queueSize), ops))
      && GapsAreMarked(Entries(p.log), Places(p.log))
      && EndIsMarked(Entries(p.log), Places(p.log), p.overflow, |Accepted(Fresh<T>(queueSize), ops)|)
  {
    RunKeeps(queueSize, ops);
    QuietRuns(queueSize, ops);
    var log := Run(Fresh<T>(queueSize), ops).log;
    LogGaps(log);
    LogPlaces(log);
  }

  // ---- Recovery ----

  /** With two free places an item is always let in, right after the notice if
      one was owed, whatever the consumer receives meanwhile. */
  lemma Recovery<T>(p: Path<T>, item: T, between: seq<Act>)
    requires Inv(p) && p.open && |p.queue| + 2 <= p.capacity
    requires forall i | 0 <= i < |between| :: between[i].Receive?
    ensures var (q, ok) := Dispatch(p, item, between);
      && ok && !q.overflow && q.dropped == p.dropped
      && q.log == p.log + (if p.overflow then [Noticed] else []) + [Enqueued(item)]
  {
    OfferNoticeKeeps(p);
    var p1 := OfferNotice(p).0;
    ConsumeAllKeeps(p1, between);
    ReceiveKeepsOpen(p1, between);
    assert p.log + [] == p.log;
  }

  lemma {:induction false} ReceiveKeepsOpen<T>(p: Path<T>, acts: seq<Act>)
    requires p.open && forall i | 0 <= i < |acts| :: acts[i].Receive?
    ensures var q := ConsumeAll(p, acts);
      q.open && q.overflow == p.overflow && q.dropped == p.dropped && q.log == p.log
    decreases |acts|
  {
    if acts != [] {
      ReceiveKeepsOpen(Consume(p, acts[0]), acts[1..]);
    }
  }

  predicate NoItemAfterDrop<T>(log: seq<Mark<T>>) {
    forall d, i | 0 <= d < i < |log| && log[d].Dropped? :: !log[i].Enqueued?
  }

  /** Between dispatches: after the first drop the flag is up. */
  predicate Starved<T>(p: Path<T>) {
    p.capacity == 1 && NoItemAfterDrop(p.log) && (p.open && Drops(p.log) > 0 ==> p.overflow)
  }

  /** Between the two sends of one: the queue is full. */
  predicate Stuffed<T>(p: Path<T>) {
    p.capacity == 1 && NoItemAfterDrop(p.log) && (p.open && Drops(p.log) > 0 ==> |p.queue| == 1)
  }

  lemma {:induction false} NoDropsMeansNone<T>(log: seq<Mark<T>>)
    ensures Drops(log) == 0 <==> forall d | 0 <= d < |log| :: !log[d].Dropped?
  {
    if log != [] {
      NoDropsMeansNone(log[..|log| - 1]);
      assert log == log[..|log| - 1] + [log[|log| - 1]];
    }
  }

  lemma StarvedNotice<T>(p: Path<T>)
    requires Inv(p) && Starved(p)
    ensures Stuffed(OfferNotice(p).0)
  {
    LogStep(p.log, Noticed);
  }

  lemma StuffedItem<T>(p: Path<T>, item: T)
    requires Stuffed(p)
    ensures Starved(OfferItem(p, item).0)
  {
    NoDropsMeansNone(p.log);
    LogStep(p.log, Enqueued(item));
    LogStep(p.log, Dropped(item));
  }

  lemma StarvationStep<T>(p: Path<T>, op: Op<T>)
    requires Inv(p) && Starved(p)
    requires op.Send? ==> NoReceive(op.between)
    ensures Starved(Step(p, op))
  {
    match op {
      case Consumer(act) =>
      case Send(item, between) =>
        StarvedNotice(p);
        NoReceiveKeepsQueue(OfferNotice(p).0, between);
        StuffedItem(ConsumeAll(OfferNotice(p).0, between), item);
    }
  }

  /** The bound is tight: with one place and no receive between the two sends,
      no item is let in after the first drop. */
  lemma {:induction false} Starvation<T>(queueSize: nat, ops: seq<Op<T>>)
    requires Quiet(ops) && queueSize <= 1
    ensures Starved(Run(Fresh<T>(queueSize), ops))
    decreases |ops|
  {
    if ops != [] {
      var before := ops[..|ops| - 1];
      Starvation(queueSize, before);
      RunKeeps(queueSize, before);
      StarvationStep(Run(Fresh<T>(queueSize), before), ops[|ops| - 1]);
    }
  }

  // ---- How much the queue holds ----

  /** The size asked for, but one at least. */
  function PlacesFor(queueSize: nat): nat {
    if queueSize == 0 then 1 else queueSize
  }

  lemma StepCapacity<T>(p: Path<T>, op: Op<T>)
    requires Inv(p)
    ensures Step(p, op).capacity == p.capacity
  {
    match op {
      case Consumer(act) => ConsumeKeeps(p, act);
      case Send(item, between) =>
        OfferNoticeKeeps(p);
        ConsumeAllKeeps(OfferNotice(p).0, between);
    }
  }

  /** The queue never holds more than was asked for. */
  lemma {:induction false} QueueIsBounded<T>(queueSize: nat, ops: seq<Op<T>>)
    ensures var p := Run(Fresh<T>(queueSize), ops);
      p.capacity == PlacesFor(queueSize) && |p.queue| <= PlacesFor(queueSize)
    decreases |ops|
  {
    RunKeeps(queueSize, ops);
    if ops != [] {
      var before := ops[..|ops| - 1];
      QueueIsBounded(queueSize, before);
      RunKeeps(queueSize, before);
      StepCapacity(Run(Fresh<T>(queueSize), before), ops[|ops| - 1]);
    }
  }

  function Sends<T>(items: seq<T>): seq<Op<T>> {
    if items == [] then [] else Sends(items[..|items| - 1]) + [Send(items[|items| - 1], [])]
  }

  function AsEntries<T>(items: seq<T>): seq<Entry<T>> {
    if items == [] then [] else AsEntries(items[..|items| - 1]) + [Item(items[|items| - 1])]
  }

  lemma SendsLast<T>(items: seq<T>)
    requires items != []
    ensures var ops := Sends(items);
      |ops| > 0 && ops[|ops| - 1] == Send(items[|items| - 1], []) && ops[..|ops| - 1] == Sends(items[..|items| - 1])
  {
  }

  lemma {:induction false} EntriesLength<T>(items: seq<T>)
    ensures |AsEntries(items)| == |items|
  {
    if items != [] {
      EntriesLength(items[..|items| - 1]);
    }
  }

  /** And it does hold as much: while nobody receives, exactly the first items are in
      the queue, as many as it has places, and the others are dropped. */
  lemma {:induction false} QueueFillsUp<T>(queueSize: nat, items: seq<T>)
    ensures var p := Run(Fresh<T>(queueSize), Sends(items));
      var n := if |items| < PlacesFor(queueSize) then |items| else PlacesFor(queueSize);
      && p.open && p.capacity == PlacesFor(queueSize)
      && p.queue == AsEntries(items[..n]) && p.dropped == |items| - n && p.received == []
      && p.overflow == (n < |items|)
    decreases |items|
  {
    if items == [] {
      assert items[..0] == items;
    } else {
      var before, cap := items[..|items| - 1], PlacesFor(queueSize);
      QueueFillsUp(queueSize, before);
      SendsLast(items);
      var n := if |before| < cap then |before| else cap;
      assert before[..n] == items[..n];
      EntriesLength(before[..n]);
      if |items| <= cap {
        assert items[..|items|] == items && items[..n] == before;
      }
    }
  }

  // ---- The dispatcher object ----

  datatype SendResult = Sent | Full | Closed

  class EventSender<T> {
    const capacity: nat
    var queue: seq<Entry<T>>
    var open: bool
    var eventOverflow: bool
    var droppedEventCount: nat
    ghost var received: seq<Entry<T>>
    ghost var log: seq<Mark<T>>

    constructor (queueSize: nat)
      ensures Value() == Fresh<T>(queueSize)
    {
      capacity := if queueSize > 1 then queueSize else 1;
      queue := [];
      open := true;
      eventOverflow := false;
      droppedEventCount := 0;
      received := [];
      log := [];
    }

    ghost function Value(): Path<T>
      reads this
    {
      Path(capacity, queue, open, eventOverflow, droppedEventCount, received, log)
    }

    /** `try_send` on the bounded channel. */
    method TrySend(entry: Entry<T>) returns (r: SendResult)
      modifies this`queue
      ensures r == if !open then Closed else if |old(queue)| < capacity then Sent else Full
      ensures queue == if r.Sent? then old(queue) + [entry] else old(queue)
    {
      if !open {
        return Closed;
      }
      if |queue| >= capacity {
        return Full;
      }
      queue := queue + [entry];
      r := Sent;
    }

    /** The consumer's side, for as long as it acts. */
    method LetConsumerAct(acts: seq<Act>)
      modifies this`queue, this`open, this`received
      ensures Value() == ConsumeAll(old(Value()), acts)
    {
      for i := 0 to |acts|
        invariant ConsumeAll(Value(), acts[i..]) == ConsumeAll(old(Value()), acts)
        invariant eventOverflow == old(eventOverflow) && droppedEventCount == old(droppedEventCount)
        invariant log == old(log)
      {
        assert acts[i..][1..] == acts[i + 1..];
        match acts[i] {
          case Hangup => open := false;
          case Receive =>
            if open && queue != [] {
              received := received + [queue[0]];
              queue := queue[1..];
            }
        }
      }
    }

    /** `dispatch_event`; `between` is what the consumer does between the two
        sends. */
    method DispatchEvent(item: T, between: seq<Act>) returns (ok: bool)
      modifies this
      ensures (Value(), ok) == Dispatch(old(Value()), item, between)
    {
      if eventOverflow {
        var r := TrySend(Notice);
        match r {
          case Sent =>
            eventOverflow := false;
            log := log + [Noticed];
          case Closed => return false;
          case Full =>
        }
      }
      LetConsumerAct(between);
      var r := TrySend(Item(item));
      match r {
        case Sent =>
          log := log + [Enqueued(item)];
          ok := true;
        case Closed =>
          ok := false;
        case Full =>
          eventOverflow := true;
          droppedEventCount := droppedEventCount + 1;
          log := log + [Dropped(item)];
          ok := true;
      }
    }
  }
}
