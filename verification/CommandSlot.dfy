/** The command protocol: many callers share the writer lock and one
    pending-reply slot; a single reader hands each reply to the sender it finds
    in the slot. Every action between two suspension points is one step, and
    steps of different callers and of the reader interleave freely. */
module CommandSlot {
  import opened Text

  type CallId = nat

  datatype Outcome =
    | Replied(reply: nat)  // the index of the reply, in order of arrival
    | Refused              // not connected
    | WriteFailed
    | TimedOut
    | SenderGone           // the sender was dropped without a reply
    | Abandoned            // the caller dropped the future

  datatype Phase =
    | Idle
    | Queued               // waits for the writer lock
    | Locked               // holds the lock
    | Armed                // its own sender is in the slot
    | Waiting              // command written, waits for reply or timer
    | Expired              // timer fired, receiver dropped
    | Cleared              // slot emptied after the timer
    | Answered(reply: nat) // reply taken, lock still held
    | Done(outcome: Outcome)

  /** The shared state. From `inbox` on, the fields are history, except that a
      live receiver reads its own entry of `inbox`. */
  datatype State = State(
    connected: bool,              // what the status channel says
    reading: bool,                // the reader has not exited
    phases: map<CallId, Phase>,
    lock: Option<CallId>,
    slot: Option<CallId>,
    inbox: map<CallId, nat>,      // reply each sender was completed with
    armedAt: map<CallId, nat>,    // replies received when the slot was set
    position: map<CallId, nat>,   // commands written when the slot was set
    written: seq<CallId>,         // commands, in the order written
    received: nat,                // replies received by the reader
    discarded: nat,               // replies no receiver got
    losses: nat)                  // calls that ended without a reply though their command may be out

  function Init(): State {
    State(true, true, map[], None, None, map[], map[], map[], [], 0, 0, 0)
  }

  function PhaseOf(s: State, c: CallId): Phase {
    if c in s.phases then s.phases[c] else Idle
  }

  predicate HoldsLock(p: Phase) {
    p.Locked? || p.Armed? || p.Waiting? || p.Expired? || p.Cleared? || p.Answered?
  }

  /** The receiver half of the call's channel exists. */
  predicate Listens(p: Phase) {
    p.Armed? || p.Waiting?
  }

  datatype Event =
    | Begin(call: CallId)
    | Acquire(call: CallId)
    | Arm(call: CallId)
    | Write(call: CallId)
    | WriteFails(call: CallId, sent: bool)   // the command may have gone out all the same
    | Reply                                  // the reader got one and looks at the slot
    | Wake(call: CallId)
    | Return(call: CallId)
    | TimerFires(call: CallId)
    | ClearSlot(call: CallId)
    | GiveUp(call: CallId)
    | SenderDropped(call: CallId)            // the receiver finds its sender gone
    | Abandon(call: CallId, sent: bool)      // the caller drops the future
    | ReaderExit(published: bool)            // with a new status, or silently when events are no longer received

  predicate Enabled(s: State, e: Event) {
    match e
    case Begin(c) => PhaseOf(s, c).Idle?
    case Acquire(c) => PhaseOf(s, c).Queued? && s.lock.None?
    case Arm(c) => PhaseOf(s, c).Locked?
    case Write(c) => PhaseOf(s, c).Armed?
    case WriteFails(c, _) => PhaseOf(s, c).Armed?
    case Reply => s.reading
    case Wake(c) => PhaseOf(s, c).Waiting? && c in s.inbox
    case Return(c) => PhaseOf(s, c).Answered?
    case TimerFires(c) => PhaseOf(s, c).Waiting?
    case ClearSlot(c) => PhaseOf(s, c).Expired?
    case GiveUp(c) => PhaseOf(s, c).Cleared?
    case SenderDropped(c) => PhaseOf(s, c).Waiting? && c !in s.inbox && s.slot != Some(c)
    case Abandon(c, sent) =>
      var p := PhaseOf(s, c);
      (p.Queued? || p.Locked? || p.Armed? || p.Waiting? || p.Expired?) && (sent ==> p.Armed?)
    case ReaderExit(_) => s.reading
  }

  function SetPhase(s: State, c: CallId, p: Phase): State {
    s.(phases := s.phases[c := p])
  }

  function Finish(s: State, c: CallId, o: Outcome): State {
    var t := SetPhase(s, c, Done(o));
    if s.lock == Some(c) then t.(lock := None) else t
  }

  function Apply(s: State, e: Event): State
    requires Enabled(s, e)
  {
    match e
    case Begin(c) => if s.connected then SetPhase(s, c, Queued) else SetPhase(s, c, Done(Refused))
    case Acquire(c) => SetPhase(s, c, Locked).(lock := Some(c))
    case Arm(c) =>
      SetPhase(s, c, Armed).(
        slot := Some(c),
        armedAt := s.armedAt[c := s.received],
        position := s.position[c := |s.written|])
    case Write(c) => SetPhase(PutOut(s, c), c, Waiting)
    case WriteFails(c, sent) => Finish(if sent then Lose(PutOut(s, c)) else s, c, WriteFailed)
    case Reply =>
      var t := s.(slot := None, received := s.received + 1);
      if s.slot.Some? && Listens(PhaseOf(s, s.slot.value))
      then t.(inbox := s.inbox[s.slot.value := s.received])
      else t.(discarded := s.discarded + 1)
    case Wake(c) => SetPhase(s, c, Answered(s.inbox[c]))
    case Return(c) => Finish(s, c, Replied(PhaseOf(s, c).reply))
    case TimerFires(c) => SetPhase(Lose(s), c, Expired)
    case ClearSlot(c) => SetPhase(s, c, Cleared).(slot := None)
    case GiveUp(c) => Finish(s, c, TimedOut)
    case SenderDropped(c) => Finish(s, c, SenderGone)
    case Abandon(c, sent) =>
      var t := if sent then Lose(PutOut(s, c)) else if PhaseOf(s, c).Waiting? then Lose(s) else s;
      Finish(t, c, Abandoned)
    case ReaderExit(published) => s.(reading := false, connected := s.connected && !published)
  }

  /** The command reaches the server. */
  function PutOut(s: State, c: CallId): State {
    s.(written := s.written + [c])
  }

  /** A command that may be out will get no reply, or a reply nobody takes. */
  function Lose(s: State): State {
    s.(losses := s.losses + 1)
  }

  // ---- Schedules ----

  /** An event that cannot happen does not; so every sequence of events is a
      schedule, and every schedule is such a sequence. */
  function Step(s: State, e: Event): State {
    if Enabled(s, e) then Apply(s, e) else s
  }

  function Run(events: seq<Event>): State {
    if events == [] then Init() else Step(Run(events[..|events| - 1]), events[|events| - 1])
  }

  // ---- The invariant ----

  predicate MustBeOut(p: Phase) {
    p.Waiting? || p.Expired? || p.Cleared? || p.Answered? ||
    (p.Done? && (p.outcome.Replied? || p.outcome.TimedOut?))
  }

  /** The lock and the slot, from the point of view of one call: it holds the
      lock exactly in the phases that say so; while it listens, its own unused
      sender is in the slot or its reply is already there. */
  predicate SlotOk(s: State, c: CallId) {
    var p := PhaseOf(s, c);
    && (HoldsLock(p) <==> s.lock == Some(c))
    && (Listens(p) ==> if c in s.inbox then s.slot == None else s.slot == Some(c))
    && (p.Expired? ==> s.slot == None || s.slot == Some(c))
    && (s.slot == Some(c) ==> c in s.armedAt && c !in s.inbox)
    && p != Done(SenderGone)
  }

  /** Its history of replies: the only one that can reach it is the first to
      arrive after its slot was set. */
  predicate ReplyOk(s: State, c: CallId) {
    var p := PhaseOf(s, c);
    && (p.Idle? || p.Queued? || p.Locked? ==> c !in s.armedAt)
    && (Listens(p) && c !in s.inbox ==> c in s.armedAt && s.armedAt[c] == s.received)
    && (c in s.inbox ==> c in s.armedAt && s.inbox[c] == s.armedAt[c] && s.inbox[c] < s.received)
    && (p.Answered? ==> c in s.inbox && s.inbox[c] == p.reply)
    && (p.Done? && p.outcome.Replied? ==> c in s.inbox && s.inbox[c] == p.outcome.reply)
  }

  /** Its history of writing: at most one command, at the position noted when
      its slot was set. */
  predicate WriteOk(s: State, c: CallId) {
    var p := PhaseOf(s, c);
    && (c in s.armedAt <==> c in s.position)
    && (p.Armed? ==> c in s.position && s.position[c] == |s.written|)
    && (MustBeOut(p) ==> c in s.position && s.position[c] < |s.written| && s.written[s.position[c]] == c)
  }

  predicate CallOk(s: State, c: CallId) {
    SlotOk(s, c) && ReplyOk(s, c) && WriteOk(s, c)
  }

  predicate WrittenOk(s: State, i: nat)
    requires i < |s.written|
  {
    s.written[i] in s.position && s.position[s.written[i]] == i
  }

  ghost predicate Inv(s: State) {
    && (forall c :: CallOk(s, c))
    && (forall i: nat | i < |s.written| :: WrittenOk(s, i))
    && (forall c, d | c in s.inbox && d in s.inbox && s.inbox[c] == s.inbox[d] :: c == d)
    && s.received == |s.inbox| + s.discarded
  }

  function CallOf(e: Event): Option<CallId> {
    match e
    case Begin(c) => Some(c)
    case Acquire(c) => Some(c)
    case Arm(c) => Some(c)
    case Write(c) => Some(c)
    case WriteFails(c, _) => Some(c)
    case Wake(c) => Some(c)
    case Return(c) => Some(c)
    case TimerFires(c) => Some(c)
    case ClearSlot(c) => Some(c)
    case GiveUp(c) => Some(c)
    case SenderDropped(c) => Some(c)
    case Abandon(c, _) => Some(c)
    case Reply => None
    case ReaderExit(_) => None
  }

  /** The calls a step depends on are in order. */
  predicate Locally(s: State, e: Event, d: CallId) {
    && CallOk(s, d)
    && (CallOf(e).Some? ==> CallOk(s, CallOf(e).value))
    && (s.slot.Some? ==> CallOk(s, s.slot.value))
  }

  lemma EnteringKeeps(s: State, e: Event, d: CallId)
    requires Enabled(s, e) && Locally(s, e, d)
    requires e.Begin? || e.Acquire? || e.Arm?
    ensures CallOk(Apply(s, e), d)
  {
  }

  lemma MiddleKeeps(s: State, e: Event, d: CallId)
    requires Enabled(s, e) && Locally(s, e, d)
    requires e.Write? || e.Wake?
    ensures CallOk(Apply(s, e), d)
  {
  }

  lemma ExpiringKeeps(s: State, e: Event, d: CallId)
    requires Enabled(s, e) && Locally(s, e, d)
    requires e.TimerFires? || e.ClearSlot?
    ensures CallOk(Apply(s, e), d)
  {
  }

  lemma EndingKeeps(s: State, e: Event, d: CallId)
    requires Enabled(s, e) && Locally(s, e, d)
    requires e.Return? || e.GiveUp? || e.SenderDropped?
    ensures CallOk(Apply(s, e), d)
  {
  }

  lemma ReplyKeeps(s: State, d: CallId)
    requires Enabled(s, Reply) && Locally(s, Reply, d)
    ensures CallOk(Apply(s, Reply), d)
  {
  }

  lemma ReaderExitKeeps(s: State, published: bool, d: CallId)
    requires Enabled(s, ReaderExit(published)) && CallOk(s, d)
    ensures CallOk(Apply(s, ReaderExit(published)), d)
  {
  }

  lemma SentFailureKeeps(s: State, e: Event, d: CallId)
    requires Enabled(s, e) && Locally(s, e, d)
    requires (e.WriteFails? || e.Abandon?) && e.sent
    ensures CallOk(Apply(s, e), d)
  {
  }

  lemma WriteFailureKeeps(s: State, e: Event, d: CallId)
    requires Enabled(s, e) && Locally(s, e, d)
    requires e.WriteFails? && !e.sent
    ensures CallOk(Apply(s, e), d)
  {
  }

  lemma AbandonQueuedKeeps(s: State, e: Event, d: CallId)
    requires Enabled(s, e) && Locally(s, e, d)
    requires e.Abandon? && !e.sent && PhaseOf(s, e.call).Queued?
    ensures CallOk(Apply(s, e), d)
  {
  }

  lemma AbandonWaitingKeeps(s: State, e: Event, d: CallId)
    requires Enabled(s, e) && Locally(s, e, d)
    requires e.Abandon? && !e.sent && PhaseOf(s, e.call).Waiting?
    ensures CallOk(Apply(s, e), d)
  {
  }

  lemma AbandonHoldingKeeps(s: State, e: Event, d: CallId)
    requires Enabled(s, e) && Locally(s, e, d)
    requires e.Abandon? && !e.sent && !PhaseOf(s, e.call).Queued? && !PhaseOf(s, e.call).Waiting?
    ensures CallOk(Apply(s, e), d)
  {
  }

  lemma StepKeepsCall(s: State, e: Event, d: CallId)
    requires Enabled(s, e) && Locally(s, e, d)
    ensures CallOk(Apply(s, e), d)
  {
    match e {
      case Begin(_) | Acquire(_) | Arm(_) => EnteringKeeps(s, e, d);
      case Write(_) | Wake(_) => MiddleKeeps(s, e, d);
      case TimerFires(_) | ClearSlot(_) => ExpiringKeeps(s, e, d);
      case Return(_) | GiveUp(_) | SenderDropped(_) => EndingKeeps(s, e, d);
      case Reply => ReplyKeeps(s, d);
      case ReaderExit(published) => ReaderExitKeeps(s, published, d);
      case WriteFails(_, sent) => if sent { SentFailureKeeps(s, e, d); } else { WriteFailureKeeps(s, e, d); }
      case Abandon(c, sent) =>
        if sent { SentFailureKeeps(s, e, d); }
        else if PhaseOf(s, c).Queued? { AbandonQueuedKeeps(s, e, d); }
        else if PhaseOf(s, c).Waiting? { AbandonWaitingKeeps(s, e, d); }
        else { AbandonHoldingKeeps(s, e, d); }
    }
  }

  /** Ending a call changes no history. */
  lemma FinishKeepsHistory(s: State, c: CallId, o: Outcome)
    ensures History(s, Finish(s, c, o), s.written, s.losses)
  {
  }

  /** No history changes but that of writing and losing. */
  predicate History(s: State, t: State, written: seq<CallId>, losses: nat) {
    && t.written == written && t.losses == losses
    && t.position == s.position && t.armedAt == s.armedAt
    && t.inbox == s.inbox && t.received == s.received && t.discarded == s.discarded
  }

  lemma EndingHistory(s: State, e: Event)
    requires Enabled(s, e) && (e.Return? || e.GiveUp? || e.SenderDropped?)
    ensures History(s, Apply(s, e), s.written, s.losses)
  {
    match e {
      case Return(c) => FinishKeepsHistory(s, c, Replied(PhaseOf(s, c).reply));
      case GiveUp(c) => FinishKeepsHistory(s, c, TimedOut);
      case SenderDropped(c) => FinishKeepsHistory(s, c, SenderGone);
    }
  }

  lemma WriteFailureHistory(s: State, c: CallId, sent: bool)
    requires Enabled(s, WriteFails(c, sent))
    ensures History(s, Apply(s, WriteFails(c, sent)), if sent then s.written + [c] else s.written,
              if sent then s.losses + 1 else s.losses)
  {
    FinishKeepsHistory(if sent then Lose(PutOut(s, c)) else s, c, WriteFailed);
  }

  lemma AbandonHistory(s: State, c: CallId, sent: bool)
    requires Enabled(s, Abandon(c, sent))
    ensures History(s, Apply(s, Abandon(c, sent)), if sent then s.written + [c] else s.written,
              if sent || PhaseOf(s, c).Waiting? then s.losses + 1 else s.losses)
  {
    FinishKeepsHistory(
      if sent then Lose(PutOut(s, c)) else if PhaseOf(s, c).Waiting? then Lose(s) else s, c, Abandoned);
  }

  lemma OngoingHistory(s: State, e: Event)
    requires Enabled(s, e) && (e.Begin? || e.Acquire? || e.Wake? || e.ClearSlot? || e.ReaderExit?)
    ensures History(s, Apply(s, e), s.written, s.losses)
  {
  }

  lemma WritingHistory(s: State, e: Event)
    requires Enabled(s, e) && (e.Write? || e.TimerFires?)
    ensures History(s, Apply(s, e), if e.Write? then s.written + [e.call] else s.written,
              if e.TimerFires? then s.losses + 1 else s.losses)
  {
  }

  /** What a step adds to the commands written, and to the losses. */
  function WrittenBy(s: State, e: Event): seq<CallId> {
    if e.Write? || ((e.WriteFails? || e.Abandon?) && e.sent) then [e.call] else []
  }

  function LostBy(s: State, e: Event): nat {
    if e.TimerFires? || ((e.WriteFails? || e.Abandon?) && e.sent) || (e.Abandon? && PhaseOf(s, e.call).Waiting?)
    then 1 else 0
  }

  lemma NothingWritten(s: State)
    ensures s.written + [] == s.written
  {
  }

  /** All history of a step that neither arms a call nor receives a reply. */
  lemma StepHistory(s: State, e: Event)
    requires Enabled(s, e) && !e.Arm? && !e.Reply?
    ensures History(s, Apply(s, e), s.written + WrittenBy(s, e), s.losses + LostBy(s, e))
  {
    NothingWritten(s);
    match e {
      case Return(_) | GiveUp(_) | SenderDropped(_) => EndingHistory(s, e);
      case WriteFails(c, sent) => WriteFailureHistory(s, c, sent);
      case Abandon(c, sent) => AbandonHistory(s, c, sent);
      case Write(_) | TimerFires(_) => WritingHistory(s, e);
      case Begin(_) | Acquire(_) | Wake(_) | ClearSlot(_) => OngoingHistory(s, e);
      case ReaderExit(_) => OngoingHistory(s, e);
    }
  }

  lemma ReplyHistory(s: State)
    requires Enabled(s, Reply)
    ensures var t := Apply(s, Reply);
      t.written == s.written && t.losses == s.losses && t.position == s.position && t.armedAt == s.armedAt
  {
  }

  /** A step writes at most one command, and only for a call just armed. */
  lemma StepWrites(s: State, e: Event)
    requires Enabled(s, e)
    ensures Apply(s, e).written == s.written ||
      (CallOf(e).Some? && PhaseOf(s, CallOf(e).value).Armed? &&
       Apply(s, e).written == s.written + [CallOf(e).value])
  {
    match e {
      case Reply => ReplyHistory(s);
      case Arm(_) =>
      case _ =>
        StepHistory(s, e);
        NothingWritten(s);
    }
  }

  /** It notes where a call stands when it arms the call. */
  lemma StepNotes(s: State, e: Event)
    requires Enabled(s, e)
    ensures Apply(s, e).position == if e.Arm? then s.position[e.call := |s.written|] else s.position
    ensures Apply(s, e).armedAt == if e.Arm? then s.armedAt[e.call := s.received] else s.armedAt
  {
    match e {
      case Reply => ReplyHistory(s);
      case Arm(_) =>
      case _ => StepHistory(s, e);
    }
  }

  /** A loss is never taken back. */
  lemma StepLoses(s: State, e: Event)
    requires Enabled(s, e)
    ensures Apply(s, e).losses >= s.losses
  {
    match e {
      case Reply => ReplyHistory(s);
      case Arm(_) =>
      case _ => StepHistory(s, e);
    }
  }

  /** Only a reply changes what was received. */
  lemma StepCounts(s: State, e: Event)
    requires Enabled(s, e) && !e.Reply?
    ensures Apply(s, e).inbox == s.inbox && Apply(s, e).received == s.received
    ensures Apply(s, e).discarded == s.discarded
  {
    if !e.Arm? {
      StepHistory(s, e);
    }
  }

  lemma StepKeepsWritten(s: State, e: Event, i: nat)
    requires Enabled(s, e) && i < |Apply(s, e).written|
    requires CallOf(e).Some? ==> CallOk(s, CallOf(e).value)
    requires i < |s.written| ==> WrittenOk(s, i) && CallOk(s, s.written[i])
    ensures WrittenOk(Apply(s, e), i)
  {
    StepWrites(s, e);
    StepNotes(s, e);
  }

  lemma StepKeepsCount(s: State, e: Event)
    requires Enabled(s, e) && Inv(s)
    ensures var t := Apply(s, e);
      && t.received == |t.inbox| + t.discarded
      && forall c, d | c in t.inbox && d in t.inbox && t.inbox[c] == t.inbox[d] :: c == d
  {
    if e.Reply? {
      ReplyKeepsCount(s);
    } else {
      StepCounts(s, e);
    }
  }

  lemma ReplyKeepsCount(s: State)
    requires Enabled(s, Reply) && Inv(s)
    ensures var t := Apply(s, Reply);
      && t.received == |t.inbox| + t.discarded
      && forall c, d | c in t.inbox && d in t.inbox && t.inbox[c] == t.inbox[d] :: c == d
  {
    if s.slot.Some? {
      assert CallOk(s, s.slot.value);
    }
    forall c | c in s.inbox ensures s.inbox[c] < s.received {
      assert CallOk(s, c);
    }
  }

  lemma StepKeeps(s: State, e: Event)
    requires Inv(s)
    ensures Inv(Step(s, e))
  {
    if Enabled(s, e) {
      var t := Apply(s, e);
      forall d ensures CallOk(t, d) {
        assert CallOk(s, d);
        assert Locally(s, e, d);
        StepKeepsCall(s, e, d);
      }
      forall i: nat | i < |t.written| ensures WrittenOk(t, i) {
        assert CallOf(e).Some? ==> CallOk(s, CallOf(e).value);
        assert i < |s.written| ==> WrittenOk(s, i) && CallOk(s, s.written[i]);
        StepKeepsWritten(s, e, i);
      }
      StepKeepsCount(s, e);
    }
  }

  lemma {:induction false} RunKeeps(events: seq<Event>)
    ensures Inv(Run(events))
  {
    if events != [] {
      RunKeeps(events[..|events| - 1]);
      StepKeeps(Run(events[..|events| - 1]), events[|events| - 1]);
    }
  }

  // ---- Slot safety ----

  /** Over every interleaving: at most one call listens, it holds the lock, and
      until its reply is there its own sender is in the slot. So no sender is
      overwritten or taken away while its receiver waits, and a receiver never
      finds its sender gone, even after the reader has exited. */
  lemma SlotSafety(events: seq<Event>, c: CallId, d: CallId)
    ensures var s := Run(events);
      && (Listens(PhaseOf(s, c)) && Listens(PhaseOf(s, d)) ==> c == d)
      && (Listens(PhaseOf(s, c)) ==> s.lock == Some(c))
      && (Listens(PhaseOf(s, c)) && c !in s.inbox ==> s.slot == Some(c))
      && !Enabled(s, SenderDropped(c))
      && PhaseOf(s, c) != Done(SenderGone)
      && (Enabled(s, Arm(c)) && s.slot == Some(d) ==> !Listens(PhaseOf(s, d)))
      && (Enabled(s, ClearSlot(c)) ==> s.slot == None || s.slot == Some(c))
  {
    RunKeeps(events);
    assert CallOk(Run(events), c) && CallOk(Run(events), d);
  }

  /** Every reply received went to one receiver or to none. */
  lemma RepliesAreConserved(events: seq<Event>)
    ensures var s := Run(events);
      && s.received == |s.inbox| + s.discarded
      && forall c, d | c in s.inbox && d in s.inbox && c != d :: s.inbox[c] != s.inbox[d]
  {
    RunKeeps(events);
  }

  // ---- Which reply a call gets ----

  /** A call is answered with the first reply received after its slot was set.
      It is the answer to its own command exactly when, at that moment, no reply
      to an earlier command was outstanding. */
  lemma FirstReplyAfterArming(events: seq<Event>, c: CallId)
    requires var p := PhaseOf(Run(events), c); p.Done? && p.outcome.Replied?
    ensures var s := Run(events);
      var k := PhaseOf(s, c).outcome.reply;
      && c in s.armedAt && c in s.position && k == s.armedAt[c]
      && (k < |s.written| && s.written[k] == c <==> s.armedAt[c] == s.position[c])
  {
    var s := Run(events);
    RunKeeps(events);
    assert CallOk(s, c);
    var k := PhaseOf(s, c).outcome.reply;
    if k < |s.written| {
      assert WrittenOk(s, k);
    }
  }

  // ---- A server that answers every command once, in order ----

  /** Reply number `k` answers command number `k`, so it cannot arrive before
      that command was written. */
  function OrderlyStep(s: State, e: Event): State {
    if e.Reply? && s.received >= |s.written| then s else Step(s, e)
  }

  function Fold<S, E>(step: (S, E) -> S, s: S, events: seq<E>): S {
    if events == [] then s else step(Fold(step, s, events[..|events| - 1]), events[|events| - 1])
  }

  lemma FoldNext<S, E>(step: (S, E) -> S, s: S, before: seq<E>, e: E)
    ensures Fold(step, s, before + [e]) == step(Fold(step, s, before), e)
  {
    assert (before + [e])[..|before|] == before;
  }

  lemma {:induction false} FoldAppend<S, E>(step: (S, E) -> S, s: S, a: seq<E>, b: seq<E>)
    ensures Fold(step, s, a + b) == Fold(step, Fold(step, s, a), b)
    decreases |b|
  {
    if b == [] {
      assert a + b == a;
    } else {
      var before := b[..|b| - 1];
      FoldAppend(step, s, a, before);
      assert (a + b)[..|a + b| - 1] == a + before;
    }
  }

  function Follow(s: State, events: seq<Event>): State {
    Fold(OrderlyStep, s, events)
  }

  lemma FollowNext(s: State, before: seq<Event>, e: Event)
    ensures Follow(s, before + [e]) == OrderlyStep(Follow(s, before), e)
  {
    FoldNext(OrderlyStep, s, before, e);
  }

  function OrderlyRun(events: seq<Event>): State {
    Follow(Init(), events)
  }

  /** The command of the lock holder is out and its reply is still to come. */
  predicate InFlight(s: State) {
    s.lock.Some? && PhaseOf(s, s.lock.value).Waiting? && s.lock.value !in s.inbox
  }

  /** The lock holder has been given a reply before it wrote anything. */
  predicate Premature(s: State) {
    s.lock.Some? && PhaseOf(s, s.lock.value).Armed? && s.lock.value in s.inbox
  }

  /** Commands written but not answered are those in flight or lost. */
  predicate LagInv(s: State) {
    && s.received <= |s.written|
    && |s.written| + (if Premature(s) then 1 else 0) <=
       s.received + s.losses + (if InFlight(s) then 1 else 0)
    && (s.losses == 0 ==> s.discarded == 0)
  }

  predicate LagAt(s: State, c: CallId) {
    c in s.armedAt && c in s.position ==> s.armedAt[c] <= s.position[c] <= s.armedAt[c] + s.losses
  }

  /** The calls that the lag depends on are in order. */
  predicate LagLocally(s: State, e: Event) {
    && (CallOf(e).Some? ==> CallOk(s, CallOf(e).value))
    && (s.lock.Some? ==> CallOk(s, s.lock.value))
    && (s.slot.Some? ==> CallOk(s, s.slot.value))
  }

  lemma LagEntering(s: State, e: Event)
    requires Enabled(s, e) && LagLocally(s, e) && LagInv(s)
    requires e.Begin? || e.Acquire? || e.Arm?
    ensures LagInv(Apply(s, e))
  {
  }

  lemma LagMiddle(s: State, e: Event)
    requires Enabled(s, e) && LagLocally(s, e) && LagInv(s)
    requires e.Write? || e.Wake? || e.TimerFires? || e.ClearSlot?
    ensures LagInv(Apply(s, e))
  {
  }

  lemma LagEnding(s: State, e: Event)
    requires Enabled(s, e) && LagLocally(s, e) && LagInv(s)
    requires e.Return? || e.GiveUp? || e.SenderDropped?
    ensures LagInv(Apply(s, e))
  {
  }

  lemma LagReader(s: State, e: Event)
    requires Enabled(s, e) && LagLocally(s, e) && LagInv(s)
    requires e.ReaderExit? || (e.Reply? && s.received < |s.written|)
    ensures LagInv(Apply(s, e))
  {
  }

  lemma LagWriteFails(s: State, e: Event)
    requires Enabled(s, e) && LagLocally(s, e) && LagInv(s)
    requires e.WriteFails?
    ensures LagInv(Apply(s, e))
  {
  }

  lemma LagAbandonSent(s: State, e: Event)
    requires Enabled(s, e) && LagLocally(s, e) && LagInv(s)
    requires e.Abandon? && e.sent
    ensures LagInv(Apply(s, e))
  {
  }

  lemma LagAbandonWaiting(s: State, e: Event)
    requires Enabled(s, e) && LagLocally(s, e) && LagInv(s)
    requires e.Abandon? && !e.sent && PhaseOf(s, e.call).Waiting?
    ensures LagInv(Apply(s, e))
  {
  }

  lemma LagAbandonHolding(s: State, e: Event)
    requires Enabled(s, e) && LagLocally(s, e) && LagInv(s)
    requires e.Abandon? && !e.sent && !PhaseOf(s, e.call).Queued? && !PhaseOf(s, e.call).Waiting?
    ensures LagInv(Apply(s, e))
  {
  }

  lemma LagAbandonQueued(s: State, e: Event)
    requires Enabled(s, e) && LagLocally(s, e) && LagInv(s)
    requires e.Abandon? && !e.sent && PhaseOf(s, e.call).Queued?
    ensures LagInv(Apply(s, e))
  {
  }

  lemma LagStep(s: State, e: Event)
    requires Enabled(s, e) && LagLocally(s, e) && LagInv(s)
    requires e.Reply? ==> s.received < |s.written|
    ensures LagInv(Apply(s, e))
  {
    match e {
      case Begin(_) | Acquire(_) | Arm(_) => LagEntering(s, e);
      case Write(_) | Wake(_) | TimerFires(_) | ClearSlot(_) => LagMiddle(s, e);
      case Return(_) | GiveUp(_) | SenderDropped(_) => LagEnding(s, e);
      case Reply => LagReader(s, e);
      case ReaderExit(_) => LagReader(s, e);
      case WriteFails(_, _) => LagWriteFails(s, e);
      case Abandon(c, sent) =>
        if sent { LagAbandonSent(s, e); }
        else if PhaseOf(s, c).Queued? { LagAbandonQueued(s, e); }
        else if PhaseOf(s, c).Waiting? { LagAbandonWaiting(s, e); }
        else { LagAbandonHolding(s, e); }
    }
  }

  lemma InvIsLocal(s: State, e: Event)
    requires Inv(s)
    ensures LagLocally(s, e)
  {
    assert CallOf(e).Some? ==> CallOk(s, CallOf(e).value);
    assert s.lock.Some? ==> CallOk(s, s.lock.value);
    assert s.slot.Some? ==> CallOk(s, s.slot.value);
  }

  lemma LagAtStep(s: State, e: Event, c: CallId)
    requires Enabled(s, e) && Inv(s) && LagInv(s) && LagAt(s, c)
    ensures LagAt(Apply(s, e), c)
  {
    StepWrites(s, e);
    StepNotes(s, e);
    StepLoses(s, e);
    if e.Arm? {
      assert CallOk(s, e.call);
    }
  }

  lemma {:induction false} OrderlyRunKeeps(events: seq<Event>, c: CallId)
    ensures var s := OrderlyRun(events); Inv(s) && LagInv(s) && LagAt(s, c)
  {
    if events != [] {
      var before, e := events[..|events| - 1], events[|events| - 1];
      OrderlyRunKeeps(before, c);
      var s := OrderlyRun(before);
      FollowNext(Init(), before, e);
      assert events == before + [e];
      StepKeeps(s, e);
      if Enabled(s, e) && !(e.Reply? && s.received >= |s.written|) {
        InvIsLocal(s, e);
        LagStep(s, e);
        LagAtStep(s, e, c);
      }
    }
  }

  /** A reply is never ahead of its caller's command, and behind it by at most
      the number of calls that were given up with their command out. */
  lemma RepliesLagByLosses(events: seq<Event>, c: CallId)
    requires var p := PhaseOf(OrderlyRun(events), c); p.Done? && p.outcome.Replied?
    ensures var s := OrderlyRun(events);
      var k := PhaseOf(s, c).outcome.reply;
      && c in s.position && s.position[c] < |s.written| && s.written[s.position[c]] == c
      && s.position[c] - s.losses <= k <= s.position[c]
  {
    OrderlyRunKeeps(events, c);
    LagOfAnswer(OrderlyRun(events), c);
  }

  lemma LagOfAnswer(s: State, c: CallId)
    requires CallOk(s, c) && LagAt(s, c) && PhaseOf(s, c).Done? && PhaseOf(s, c).outcome.Replied?
    ensures var k := PhaseOf(s, c).outcome.reply;
      && c in s.position && s.position[c] < |s.written| && s.written[s.position[c]] == c
      && s.position[c] - s.losses <= k <= s.position[c]
  {
  }

  /** Every answered caller got the reply to its own command. */
  predicate Correlated(s: State, c: CallId) {
    PhaseOf(s, c).Done? && PhaseOf(s, c).outcome.Replied? ==>
      var k := PhaseOf(s, c).outcome.reply; k < |s.written| && s.written[k] == c
  }

  lemma NoLossCorrelates(s: State, c: CallId)
    requires CallOk(s, c) && LagAt(s, c) && s.losses == 0
    ensures Correlated(s, c)
  {
    if PhaseOf(s, c).Done? && PhaseOf(s, c).outcome.Replied? {
      LagOfAnswer(s, c);
    }
  }

  /** As long as no call was given up with its command out (no timeout, no
      failed write, no abandoned wait), every answered caller got the reply to
      its own command, and no reply was discarded. */
  lemma CleanRunsCorrelate(events: seq<Event>, c: CallId)
    requires OrderlyRun(events).losses == 0
    ensures Correlated(OrderlyRun(events), c) && OrderlyRun(events).discarded == 0
  {
    OrderlyRunKeeps(events, c);
    assert CallOk(OrderlyRun(events), c);
    NoLossCorrelates(OrderlyRun(events), c);
  }

  // ---- Without that condition ----

  lemma ThreeMore(s: State, before: seq<Event>, x: Event, y: Event, z: Event)
    ensures Follow(s, before + [x, y, z]) == OrderlyStep(OrderlyStep(OrderlyStep(Follow(s, before), x), y), z)
  {
    assert before + [x, y, z] == ((before + [x]) + [y]) + [z];
    FollowNext(s, before, x);
    FollowNext(s, before + [x], y);
    FollowNext(s, (before + [x]) + [y], z);
  }

  function Asking(c: CallId): seq<Event> {
    [Begin(c), Acquire(c), Arm(c), Write(c)]
  }

  /** A call nobody disturbs, answered by the next reply to arrive. */
  function WholeCall(c: CallId): seq<Event> {
    Asking(c) + [Reply, Wake(c), Return(c)]
  }

  /** A call that goes out and times out. */
  function GivenUp(c: CallId): seq<Event> {
    Asking(c) + [TimerFires(c), ClearSlot(c), GiveUp(c)]
  }

  predicate Quiet(s: State, c: CallId) {
    s.connected && s.reading && s.lock.None? && PhaseOf(s, c).Idle? && c !in s.inbox && s.received <= |s.written|
  }

  predicate Asked(s: State, t: State, c: CallId) {
    && t.connected && t.reading && t.lock == Some(c) && t.slot == Some(c) && PhaseOf(t, c).Waiting?
    && t.inbox == s.inbox && t.received == s.received && t.written == s.written + [c]
    && t.position == s.position[c := |s.written|]
    && t.phases == s.phases[c := Waiting]
  }

  lemma FromIdleToArmed(s: State, c: CallId)
    requires Quiet(s, c)
    ensures OrderlyStep(OrderlyStep(OrderlyStep(s, Begin(c)), Acquire(c)), Arm(c)) ==
      s.(phases := s.phases[c := Armed], lock := Some(c), slot := Some(c),
         armedAt := s.armedAt[c := s.received], position := s.position[c := |s.written|])
  {
    var queued := SetPhase(s, c, Queued);
    var locked := SetPhase(queued, c, Locked);
    assert SetPhase(locked, c, Armed).phases == s.phases[c := Armed];
  }

  lemma AskingAsks(s: State, c: CallId)
    requires Quiet(s, c)
    ensures Asked(s, Follow(s, Asking(c)), c)
  {
    ThreeMore(s, [], Begin(c), Acquire(c), Arm(c));
    FromIdleToArmed(s, c);
    var armed := [] + [Begin(c), Acquire(c), Arm(c)];
    FollowNext(s, armed, Write(c));
    assert armed + [Write(c)] == Asking(c);
    assert SetPhase(SetPhase(s, c, Armed), c, Waiting).phases == s.phases[c := Waiting];
  }

  lemma AnsweredAfterAsking(s: State, t: State, c: CallId)
    requires Quiet(s, c) && Asked(s, t, c)
    ensures var u := OrderlyStep(OrderlyStep(OrderlyStep(t, Reply), Wake(c)), Return(c));
      && PhaseOf(u, c) == Done(Replied(s.received))
      && u.position == t.position && u.written == t.written
  {
  }

  /** A call nobody disturbs gets the next reply that arrives, so its own exactly
      when nothing was outstanding when it began. */
  lemma NextReplyExactly(s: State, c: CallId)
    requires Quiet(s, c)
    ensures var t := Follow(s, WholeCall(c));
      && PhaseOf(t, c) == Done(Replied(s.received))
      && c in t.position && t.position[c] == |s.written| && t.written == s.written + [c]
      && (PhaseOf(t, c).outcome.reply == t.position[c] <==> s.received == |s.written|)
  {
    AskingAsks(s, c);
    AnsweredAfterAsking(s, Follow(s, Asking(c)), c);
    ThreeMore(s, Asking(c), Reply, Wake(c), Return(c));
  }

  /** After a call that timed out, the channel is free again but its reply is
      outstanding. */
  lemma GivenUpLeavesAReply(s: State, c: CallId, d: CallId)
    requires Quiet(s, c) && Quiet(s, d) && c != d && s.received == |s.written|
    ensures var t := Follow(s, GivenUp(c));
      && Quiet(t, d) && PhaseOf(t, c) == Done(TimedOut)
      && t.received == s.received < |t.written| && t.written == s.written + [c]
  {
    AskingAsks(s, c);
    ThreeMore(s, Asking(c), TimerFires(c), ClearSlot(c), GiveUp(c));
  }

  /** So the call after a timed-out one is answered with the late reply. */
  lemma LateReplyGoesToTheNextCall()
    ensures var s := OrderlyRun(GivenUp(1) + WholeCall(2));
      PhaseOf(s, 2) == Done(Replied(0)) && s.written == [1, 2] && !Correlated(s, 2)
  {
    GivenUpLeavesAReply(Init(), 1, 2);
    FoldAppend(OrderlyStep, Init(), GivenUp(1), WholeCall(2));
    NextReplyExactly(OrderlyRun(GivenUp(1)), 2);
    assert [1] + [2] == [1, 2];
  }
}
