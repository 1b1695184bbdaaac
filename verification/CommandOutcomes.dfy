/** What the outcome of a call means, in terms of the schedule alone: when a call is
    refused, what every other outcome has behind it, and what counts as a loss. */
module CommandOutcomes {
  import opened Text
  import opened CommandSlot

  // ---- Schedules, without the state ----

  /** The reader has exited. */
  predicate Exited(events: seq<Event>) {
    exists i | 0 <= i < |events| :: events[i].ReaderExit?
  }

  /** The reader exits for the first time at `i`, and publishes it. */
  predicate PublishesAt(events: seq<Event>, i: nat) {
    && i < |events| && events[i] == ReaderExit(true)
    && forall k | 0 <= k < i :: !events[k].ReaderExit?
  }

  predicate Published(events: seq<Event>) {
    exists i | 0 <= i < |events| :: PublishesAt(events, i)
  }

  /** The call begins at `j`; a call begins once. */
  predicate BeginsAt(events: seq<Event>, c: CallId, j: nat) {
    j < |events| && events[j] == Begin(c) && Begin(c) !in events[..j]
  }

  /** It begins after the exit was published. */
  predicate BeginsTooLate(events: seq<Event>, c: CallId) {
    exists j | 0 <= j < |events| :: BeginsAt(events, c, j) && Published(events[..j])
  }

  lemma ExitedNext(before: seq<Event>, e: Event)
    ensures Exited(before + [e]) <==> Exited(before) || e.ReaderExit?
    ensures Published(before + [e]) <==> Published(before) || (e == ReaderExit(true) && !Exited(before))
  {
    var events := before + [e];
    assert events[|before|] == e;
    assert forall i | 0 <= i < |before| :: events[i] == before[i];
    forall i: nat | i < |before| ensures PublishesAt(events, i) <==> PublishesAt(before, i) {
    }
    if Published(before) {
      var i :| 0 <= i < |before| && PublishesAt(before, i);
      assert PublishesAt(events, i);
    }
    if e == ReaderExit(true) && !Exited(before) {
      assert PublishesAt(events, |before|);
    }
  }

  lemma TooLateNext(before: seq<Event>, e: Event, c: CallId)
    ensures BeginsTooLate(before + [e], c) <==>
      BeginsTooLate(before, c) || (e == Begin(c) && Begin(c) !in before && Published(before))
  {
    var events := before + [e];
    assert events[..|before|] == before && events[|before|] == e;
    assert forall j | 0 <= j < |before| :: events[j] == before[j] && events[..j] == before[..j];
    if BeginsTooLate(before, c) {
      var j :| 0 <= j < |before| && BeginsAt(before, c, j) && Published(before[..j]);
      assert BeginsAt(events, c, j) && Published(events[..j]);
    }
    if e == Begin(c) && Begin(c) !in before && Published(before) {
      assert BeginsAt(events, c, |before|) && Published(events[..|before|]);
    }
    if BeginsTooLate(events, c) {
      var j :| 0 <= j < |events| && BeginsAt(events, c, j) && Published(events[..j]);
      if j < |before| {
        assert BeginsAt(before, c, j) && Published(before[..j]);
      }
    }
  }

  // ---- Refusals ----

  /** The phase that a step of a call leads to. */
  function NextPhase(s: State, e: Event): Phase
    requires Enabled(s, e) && CallOf(e).Some?
  {
    match e
    case Begin(_) => if s.connected then Queued else Done(Refused)
    case Acquire(_) => Locked
    case Arm(_) => Armed
    case Write(_) => Waiting
    case WriteFails(_, _) => Done(WriteFailed)
    case Wake(c) => Answered(s.inbox[c])
    case Return(c) => Done(Replied(PhaseOf(s, c).reply))
    case TimerFires(_) => Expired
    case ClearSlot(_) => Cleared
    case GiveUp(_) => Done(TimedOut)
    case SenderDropped(_) => Done(SenderGone)
    case Abandon(_, _) => Done(Abandoned)
    case Reply => Idle
    case ReaderExit(_) => Idle
  }

  /** A step changes the phase of its own call and of no other. */
  predicate Moved(s: State, e: Event, t: State)
    requires Enabled(s, e)
  {
    && t.phases == (if CallOf(e).Some? then s.phases[CallOf(e).value := NextPhase(s, e)] else s.phases)
    && t.reading == (s.reading && !e.ReaderExit?)
    && t.connected == (s.connected && e != ReaderExit(true))
  }

  lemma FinishMoves(s: State, t: State, c: CallId, o: CommandSlot.Outcome)
    requires t.phases == s.phases && t.reading == s.reading && t.connected == s.connected
    ensures var u := Finish(t, c, o);
      u.phases == s.phases[c := Done(o)] && u.reading == s.reading && u.connected == s.connected
  {
  }

  lemma EnteringMoves(s: State, e: Event)
    requires Enabled(s, e) && (e.Begin? || e.Acquire? || e.Arm? || e.Write?)
    ensures Moved(s, e, Apply(s, e))
  {
  }

  lemma WaitingMoves(s: State, e: Event)
    requires Enabled(s, e) && (e.Wake? || e.TimerFires? || e.ClearSlot? || e.Reply? || e.ReaderExit?)
    ensures Moved(s, e, Apply(s, e))
  {
  }

  lemma StepMoves(s: State, e: Event)
    requires Enabled(s, e)
    ensures Moved(s, e, Apply(s, e))
  {
    match e {
      case Begin(_) | Acquire(_) | Arm(_) | Write(_) => EnteringMoves(s, e);
      case Wake(_) | TimerFires(_) | ClearSlot(_) => WaitingMoves(s, e);
      case Reply => WaitingMoves(s, e);
      case ReaderExit(_) => WaitingMoves(s, e);
      case Return(c) => FinishMoves(s, s, c, Replied(PhaseOf(s, c).reply));
      case GiveUp(c) => FinishMoves(s, s, c, TimedOut);
      case SenderDropped(c) => FinishMoves(s, s, c, SenderGone);
      case WriteFails(c, sent) => FinishMoves(s, if sent then Lose(PutOut(s, c)) else s, c, WriteFailed);
      case Abandon(c, sent) =>
        var t := if sent then Lose(PutOut(s, c)) else if PhaseOf(s, c).Waiting? then Lose(s) else s;
        FinishMoves(s, t, c, Abandoned);
    }
  }

  /** No event but its beginning takes a call out of idleness or refuses it. */
  lemma MoveBegins(s: State, e: Event, t: State, c: CallId)
    requires Enabled(s, e) && Moved(s, e, t)
    ensures PhaseOf(t, c).Idle? <==> PhaseOf(s, c).Idle? && e != Begin(c)
    ensures PhaseOf(t, c) == Done(Refused) <==>
      PhaseOf(s, c) == Done(Refused) || (e == Begin(c) && !s.connected)
  {
  }

  lemma StepBegins(s: State, e: Event, c: CallId)
    ensures Step(s, e).reading == (s.reading && !e.ReaderExit?)
    ensures Step(s, e).connected == (s.connected && !(e == ReaderExit(true) && s.reading))
    ensures PhaseOf(Step(s, e), c).Idle? <==> PhaseOf(s, c).Idle? && e != Begin(c)
    ensures PhaseOf(Step(s, e), c) == Done(Refused) <==>
      PhaseOf(s, c) == Done(Refused) || (e == Begin(c) && PhaseOf(s, c).Idle? && !s.connected)
  {
    if Enabled(s, e) {
      StepMoves(s, e);
      MoveBegins(s, e, Apply(s, e), c);
    }
  }

  lemma {:induction false} StatusExactly(events: seq<Event>)
    ensures Run(events).reading <==> !Exited(events)
    ensures Run(events).connected <==> !Published(events)
  {
    if events != [] {
      var before, e := events[..|events| - 1], events[|events| - 1];
      StatusExactly(before);
      StepBegins(Run(before), e, 0);
      ExitedNext(before, e);
      assert events == before + [e];
    }
  }

  lemma {:induction false} IdleExactly(events: seq<Event>, c: CallId)
    ensures PhaseOf(Run(events), c).Idle? <==> Begin(c) !in events
  {
    if events != [] {
      var before, e := events[..|events| - 1], events[|events| - 1];
      IdleExactly(before, c);
      StepBegins(Run(before), e, c);
      assert events == before + [e];
    }
  }

  lemma {:induction false} RefusedIfTooLate(events: seq<Event>, c: CallId)
    ensures PhaseOf(Run(events), c) == Done(Refused) <==> BeginsTooLate(events, c)
  {
    if events != [] {
      var before, e := events[..|events| - 1], events[|events| - 1];
      RefusedIfTooLate(before, c);
      StepBegins(Run(before), e, c);
      StatusExactly(before);
      IdleExactly(before, c);
      TooLateNext(before, e, c);
      assert events == before + [e];
    }
  }

  lemma {:induction false} RefusedNeverArms(events: seq<Event>, c: CallId)
    requires PhaseOf(Run(events), c) == Done(Refused)
    ensures c !in Run(events).armedAt
  {
    if events != [] {
      var before, e := events[..|events| - 1], events[|events| - 1];
      StepBegins(Run(before), e, c);
      RunKeeps(before);
      assert CallOk(Run(before), c);
      if PhaseOf(Run(before), c) == Done(Refused) {
        RefusedNeverArms(before, c);
      }
      if Enabled(Run(before), e) {
        StepNotes(Run(before), e);
      }
    }
  }

  lemma WrittenWasArmed(s: State, c: CallId)
    requires Inv(s) && c in s.written
    ensures c in s.armedAt
  {
    var i: nat :| i < |s.written| && s.written[i] == c;
    assert WrittenOk(s, i) && CallOk(s, c);
  }

  /** Over every schedule, a call is refused exactly if it begins after the reader
      has published its exit - not after a silent exit - and no command of a refused
      call is ever written. */
  lemma RefusedExactly(events: seq<Event>, c: CallId)
    ensures PhaseOf(Run(events), c) == Done(Refused) <==> BeginsTooLate(events, c)
    ensures BeginsTooLate(events, c) ==> c !in Run(events).written
  {
    RefusedIfTooLate(events, c);
    if BeginsTooLate(events, c) {
      RefusedNeverArms(events, c);
      RunKeeps(events);
      if c in Run(events).written {
        WrittenWasArmed(Run(events), c);
      }
    }
  }

  // ---- What an outcome has behind it ----

  /** The steps that the phase of a call tells of are in the schedule. */
  predicate Traced(events: seq<Event>, c: CallId, p: Phase) {
    match p
    case Idle => true
    case Queued => Begin(c) in events
    case Locked => Begin(c) in events && Acquire(c) in events
    case Armed => Acquire(c) in events && Arm(c) in events
    case Waiting => Arm(c) in events && Write(c) in events
    case Expired => Write(c) in events && TimerFires(c) in events
    case Cleared => Write(c) in events && TimerFires(c) in events && ClearSlot(c) in events
    case Answered(_) => Write(c) in events && Wake(c) in events
    case Done(Replied(_)) => Write(c) in events && Wake(c) in events && Return(c) in events
    case Done(Refused) => Begin(c) in events
    case Done(WriteFailed) => Arm(c) in events && (WriteFails(c, true) in events || WriteFails(c, false) in events)
    case Done(TimedOut) => Write(c) in events && TimerFires(c) in events && GiveUp(c) in events
    case Done(SenderGone) => SenderDropped(c) in events
    case Done(Abandoned) => Abandon(c, true) in events || Abandon(c, false) in events
  }

  lemma TracedMore(before: seq<Event>, e: Event, c: CallId, p: Phase)
    requires Traced(before, c, p)
    ensures Traced(before + [e], c, p)
  {
  }

  lemma OthersStay(s: State, e: Event, t: State, c: CallId)
    requires Enabled(s, e) && Moved(s, e, t) && CallOf(e) != Some(c)
    ensures PhaseOf(t, c) == PhaseOf(s, c)
  {
  }

  lemma TracedNext(before: seq<Event>, s: State, e: Event, c: CallId)
    requires Enabled(s, e) && CallOf(e) == Some(c) && Traced(before, c, PhaseOf(s, c))
    ensures Traced(before + [e], c, NextPhase(s, e))
  {
  }

  /** Every outcome was brought about by the steps of the call itself. */
  lemma {:induction false} OutcomeHasCause(events: seq<Event>, c: CallId)
    ensures Traced(events, c, PhaseOf(Run(events), c))
    ensures PhaseOf(Run(events), c) != Done(SenderGone)
  {
    RunKeeps(events);
    assert CallOk(Run(events), c);
    if events != [] {
      var before, e := events[..|events| - 1], events[|events| - 1];
      var s := Run(before);
      OutcomeHasCause(before, c);
      assert events == before + [e];
      TracedMore(before, e, c, PhaseOf(s, c));
      if Enabled(s, e) {
        StepMoves(s, e);
        if CallOf(e) == Some(c) {
          TracedNext(before, s, e, c);
        } else {
          OthersStay(s, e, Apply(s, e), c);
        }
      }
    }
  }

  // ---- Losses ----

  /** The call has ended, or is about to, without a reply. */
  predicate GivenUpOn(p: Phase) {
    p.Expired? || p.Cleared? || (p.Done? && !p.outcome.Replied?)
  }

  /** The calls whose command was written and which were given up. */
  function CallsGivenUp(s: State): set<CallId> {
    set c | c in s.phases && GivenUpOn(s.phases[c]) && c in s.written
  }

  /** Which commands are out, as far as the phase tells. */
  predicate Stands(s: State, c: CallId) {
    var p := PhaseOf(s, c);
    && (p.Idle? || p.Queued? || p.Locked? || p.Armed? ==> c !in s.written)
    && (p.Waiting? || p.Expired? || p.Cleared? ==> c in s.written)
  }

  lemma WrittenStands(s: State, c: CallId)
    requires Inv(s)
    ensures Stands(s, c)
  {
    assert CallOk(s, c);
    if c in s.written {
      var i: nat :| i < |s.written| && s.written[i] == c;
      assert WrittenOk(s, i);
    }
  }

  /** A step may add to the commands written and to the losses. */
  predicate Counted(s: State, e: Event, t: State) {
    t.written == s.written + WrittenBy(s, e) && t.losses == s.losses + LostBy(s, e)
  }

  lemma StepCounted(s: State, e: Event)
    requires Enabled(s, e)
    ensures Counted(s, e, Apply(s, e))
  {
    NothingWritten(s);
    match e {
      case Reply => ReplyHistory(s);
      case Arm(_) =>
      case _ => StepHistory(s, e);
    }
  }

  lemma OwnMove(s: State, e: Event, t: State, c: CallId)
    requires Enabled(s, e) && CallOf(e) == Some(c) && !e.SenderDropped?
    requires Moved(s, e, t) && Counted(s, e, t) && Stands(s, c)
    ensures c in CallsGivenUp(t) <==> c in CallsGivenUp(s) || LostBy(s, e) == 1
    ensures LostBy(s, e) == 1 ==> c !in CallsGivenUp(s)
  {
  }

  lemma OtherMove(s: State, e: Event, t: State, c: CallId)
    requires Enabled(s, e) && CallOf(e) != Some(c) && Moved(s, e, t) && Counted(s, e, t)
    ensures c in CallsGivenUp(t) <==> c in CallsGivenUp(s)
  {
  }

  lemma SetGrows(a: set<CallId>, b: set<CallId>, c: CallId, grows: bool)
    requires forall d: CallId | d != c :: d in b <==> d in a
    requires (c in b <==> c in a || grows) && (grows ==> c !in a)
    ensures |b| == |a| + (if grows then 1 else 0)
  {
    assert b == a + (if grows then {c} else {});
  }

  lemma OthersMove(s: State, e: Event, t: State)
    requires Enabled(s, e) && Moved(s, e, t) && Counted(s, e, t)
    ensures forall c: CallId | CallOf(e) != Some(c) :: c in CallsGivenUp(t) <==> c in CallsGivenUp(s)
  {
    forall c: CallId | CallOf(e) != Some(c) ensures c in CallsGivenUp(t) <==> c in CallsGivenUp(s) {
      OtherMove(s, e, t, c);
    }
  }

  lemma GivenUpGrows(s: State, e: Event, t: State)
    requires Enabled(s, e) && Inv(s) && Moved(s, e, t) && Counted(s, e, t)
    ensures |CallsGivenUp(t)| == |CallsGivenUp(s)| + LostBy(s, e)
  {
    OthersMove(s, e, t);
    if CallOf(e).Some? {
      var c := CallOf(e).value;
      WrittenStands(s, c);
      NoSenderIsDropped(s, e);
      OwnMove(s, e, t, c);
      SetGrows(CallsGivenUp(s), CallsGivenUp(t), c, LostBy(s, e) == 1);
    } else {
      assert CallsGivenUp(t) == CallsGivenUp(s);
    }
  }

  lemma NoSenderIsDropped(s: State, e: Event)
    requires Inv(s) && Enabled(s, e)
    ensures !e.SenderDropped?
  {
    assert CallOf(e).Some? ==> CallOk(s, CallOf(e).value);
  }

  lemma StepLosses(s: State, e: Event)
    requires Inv(s) && s.losses == |CallsGivenUp(s)|
    ensures Step(s, e).losses == |CallsGivenUp(Step(s, e))|
  {
    if Enabled(s, e) {
      StepMoves(s, e);
      StepCounted(s, e);
      GivenUpGrows(s, e, Apply(s, e));
    }
  }

  /** The losses are exactly the calls whose command was written and which ended, or
      are about to end, without a reply - under any server. */
  lemma {:induction false} LossesAreCallsGivenUp(events: seq<Event>)
    ensures Run(events).losses == |CallsGivenUp(Run(events))|
  {
    if events != [] {
      var before := events[..|events| - 1];
      LossesAreCallsGivenUp(before);
      RunKeeps(before);
      StepLosses(Run(before), events[|events| - 1]);
    }
  }

  /** And under an orderly one. */
  lemma {:induction false} OrderlyLosses(events: seq<Event>)
    ensures OrderlyRun(events).losses == |CallsGivenUp(OrderlyRun(events))|
  {
    if events != [] {
      var before, e := events[..|events| - 1], events[|events| - 1];
      OrderlyLosses(before);
      OrderlyRunKeeps(before, 0);
      FollowNext(Init(), before, e);
      assert events == before + [e];
      StepLosses(OrderlyRun(before), e);
    }
  }
}
