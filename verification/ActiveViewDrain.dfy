/** When a shared drain gives up, told from the requests and aborts of the run. */
module ActiveViewDrain {
  import opened Options
  import opened ActiveViewProtocol

  /** The signals of the requests that the drain in progress has been joined by; None is a request without
      one. A request whose signal is aborted already is rejected, and a second quit flush joins nothing. */
  function Joined(start: State, es: seq<Event>): seq<Option<nat>>
    decreases |es|
  {
    if es == [] then []
    else
      var before, e := es[..|es| - 1], es[|es| - 1];
      var joined := Joined(start, before);
      match e
      case FlushPending(signal) =>
        if signal.Some? && Abort(signal.value) in before then joined else joined + [signal]
      case FlushQuit => if FlushQuit in before then joined else joined + [None]
      case DrainForgotten => if Run(start, before).drain.Settled? then [] else joined
      case _ => joined
  }

  /** Somebody has joined, and everybody who has can be aborted and has been. */
  ghost predicate Abandoned(es: seq<Event>, joined: seq<Option<nat>>) {
    joined != [] && forall i :: 0 <= i < |joined| ==> joined[i].Some? && Abort(joined[i].value) in es
  }

  /** The write enqueued with this generation has not settled. */
  ghost predicate InChain(c: Chain, generation: nat) {
    c.running.Some? && (c.running.value.ticket.generation == generation
                        || exists i :: 0 <= i < |c.waiting| && c.waiting[i].generation == generation)
  }

  // ----- what the object knows of its consumers

  function Unabortable(joined: seq<Option<nat>>): nat {
    if joined == [] then 0
    else Unabortable(joined[..|joined| - 1]) + if joined[|joined| - 1].None? then 1 else 0
  }

  lemma {:induction false} UnabortableIff(joined: seq<Option<nat>>)
    ensures Unabortable(joined) == 0 <==> forall i :: 0 <= i < |joined| ==> joined[i].Some?
  {
    if joined != [] {
      UnabortableIff(joined[..|joined| - 1]);
    }
  }

  /** The three records of the object are what the events say. */
  ghost predicate Recorded(s: State, es: seq<Event>, joined: seq<Option<nat>>) {
    && s.consumers.unabortable == Unabortable(joined)
    && (forall n :: n in s.consumers.signals <==> Some(n) in joined)
    && (forall n :: n in s.consumers.aborted <==> Abort(n) in es)
    && (s.quitStarted <==> FlushQuit in es)
  }

  lemma ConsumersAfterOther(s: State, e: Event)
    requires !e.FlushPending? && !e.FlushQuit? && !e.DrainForgotten? && !e.Abort?
    ensures Apply(s, e).consumers == s.consumers && Apply(s, e).quitStarted == s.quitStarted
  {
    if e.DrainResumes? {
      DrainEventIsDrainLike(s, e);
    }
  }

  lemma ConsumersAfterRequest(s: State, signal: Option<nat>)
    ensures var t := Apply(s, FlushPending(signal));
            && t.quitStarted == s.quitStarted
            && t.consumers == if s.consumers.Rejects(signal) then s.consumers else s.consumers.Join(signal)
  {}

  lemma RecordedAfterJoin(s: State, es: seq<Event>, joined: seq<Option<nat>>, signal: Option<nat>, t: State, e: Event)
    requires Recorded(s, es, joined) && t.consumers == s.consumers.Join(signal) && !e.Abort?
    requires t.quitStarted == (s.quitStarted || e.FlushQuit?)
    ensures Recorded(t, es + [e], joined + [signal])
  {
    var next := joined + [signal];
    assert next[..|joined|] == joined;
  }

  lemma {:induction false} RunLast(s: State, es: seq<Event>)
    requires es != []
    ensures Run(s, es) == Apply(Run(s, es[..|es| - 1]), es[|es| - 1])
  {
    var before, e := es[..|es| - 1], es[|es| - 1];
    assert es == before + [e];
    RunAppend(s, before, [e]);
    assert Run(Apply(Run(s, before), e), []) == Apply(Run(s, before), e);
  }

  lemma {:induction false} EventsAreRecorded(stored: Option<View>, fallback: View, es: seq<Event>)
    ensures var start := Initial(stored, fallback); Recorded(Run(start, es), es, Joined(start, es))
    decreases |es|
  {
    if es != [] {
      var start, before, e := Initial(stored, fallback), es[..|es| - 1], es[|es| - 1];
      var s, joined := Run(start, before), Joined(start, before);
      EventsAreRecorded(stored, fallback, before);
      RunLast(start, es);
      assert es == before + [e];
      RecordedStep(s, before, joined, e, Joined(start, es));
    }
  }

  lemma RecordedStep(s: State, before: seq<Event>, joined: seq<Option<nat>>, e: Event, next: seq<Option<nat>>)
    requires Recorded(s, before, joined)
    requires next == match e
                     case FlushPending(signal) =>
                       if signal.Some? && Abort(signal.value) in before then joined else joined + [signal]
                     case FlushQuit => if FlushQuit in before then joined else joined + [None]
                     case DrainForgotten => if s.drain.Settled? then [] else joined
                     case _ => joined
    ensures Recorded(Apply(s, e), before + [e], next)
  {
    var t := Apply(s, e);
    match e
    case FlushPending(signal) =>
      ConsumersAfterRequest(s, signal);
      if !s.consumers.Rejects(signal) {
        RecordedAfterJoin(s, before, joined, signal, t, e);
      }
    case FlushQuit =>
      if !s.quitStarted {
        ConsumersAfterRequest(s.(quitStarted := true), None);
        RecordedAfterJoin(s, before, joined, None, t, e);
      }
    case DrainForgotten =>
    case Abort(_) =>
    case _ => ConsumersAfterOther(s, e);
  }

  // ----- main results

  lemma AwaitedIff(s: State)
    requires Inv(s) && AwaitedIsQueued(s) && s.drain.Awaiting?
    ensures Awaited(s) <==> InChain(s.chain, s.drain.generation)
  {}

  lemma AbandonedIff(s: State, es: seq<Event>, joined: seq<Option<nat>>)
    requires Recorded(s, es, joined)
    ensures s.consumers.AllAborted() <==> Abandoned(es, joined)
  {
    UnabortableIff(joined);
    if Abandoned(es, joined) {
      assert joined[0].value in s.consumers.signals;
    }
  }

  lemma ReachableFacts(stored: Option<View>, fallback: View, es: seq<Event>)
    ensures var start := Initial(stored, fallback);
            var s := Run(start, es);
            && Inv(s) && AwaitedIsQueued(s) && Recorded(s, es, Joined(start, es))
  {
    InitialInv(stored, fallback);
    RunKeepsInv(Initial(stored, fallback), es);
    AwaitedWriteIsQueued(Initial(stored, fallback), es);
    EventsAreRecorded(stored, fallback, es);
  }

  /** In every run a step ends the drain with an error if and only if the drain resumes after its write has
      settled and every request that has joined it carried a signal which has been aborted. Nothing else
      changes then: not the file, nor the timer, nor the writes. */
  lemma DrainGivesUpIff(stored: Option<View>, fallback: View, es: seq<Event>, e: Event)
    ensures var start := Initial(stored, fallback);
            var s := Run(start, es);
            var t := Apply(s, e);
            && ((s.drain != Settled(false) && t.drain == Settled(false))
                <==> && e.DrainResumes? && s.drain.Awaiting? && !InChain(s.chain, s.drain.generation)
                     && Abandoned(es, Joined(start, es)))
            && (s.drain != Settled(false) && t.drain == Settled(false) ==> t == s.(drain := Settled(false)))
  {
    var start := Initial(stored, fallback);
    var s := Run(start, es);
    ReachableFacts(stored, fallback, es);
    AbandonedIff(s, es, Joined(start, es));
    if s.drain.Awaiting? {
      AwaitedIff(s);
    }
    if e.FlushPending? {
      JoiningIsNoGivingUp(s, e.signal);
    } else if e.FlushQuit? {
      JoiningIsNoGivingUp(s.(quitStarted := true), None);
    }
  }

  /** Who joins an idle drain has not been aborted, so its first turn does not give up. */
  lemma JoiningIsNoGivingUp(s: State, signal: Option<nat>)
    ensures s.drain != Settled(false) ==> RequestDrain(s, signal).drain != Settled(false)
  {}

  /** Otherwise a drain that resumes is done exactly if its generation is still the newest, or there is
      nothing to write; else it takes another turn, and awaits a write of the view as it is now. */
  lemma DrainGoesOn(stored: Option<View>, fallback: View, es: seq<Event>)
    requires var s := Run(Initial(stored, fallback), es);
             && s.drain.Awaiting? && !InChain(s.chain, s.drain.generation)
             && !Abandoned(es, Joined(Initial(stored, fallback), es))
    ensures var s := Run(Initial(stored, fallback), es);
            var t := Apply(s, DrainResumes);
            var written := s.chain.running.None? && s.store.persisted == Some(s.activeView);
            && t.store == s.store
            && if s.drain.generation == s.generation then t == s.(drain := Settled(true))
               else if written then t == s.(timerArmed := false, drain := Settled(true))
               else && t.drain == Awaiting(s.generation + 1) && t.generation == s.generation + 1 && !t.timerArmed
                    && t.chain == s.chain.Enqueue(Ticket(s.activeView, s.generation + 1))
  {
    var s := Run(Initial(stored, fallback), es);
    ReachableFacts(stored, fallback, es);
    AbandonedIff(s, es, Joined(Initial(stored, fallback), es));
    AwaitedIff(s);
  }

  /** A request changes nothing if and only if its signal has been aborted before, or has already joined the
      drain in progress. */
  lemma RequestIsIdleIff(stored: Option<View>, fallback: View, es: seq<Event>, signal: nat)
    ensures var start := Initial(stored, fallback);
            var s := Run(start, es);
            (Apply(s, FlushPending(Some(signal))) == s
             <==> Abort(signal) in es || (s.drain != Idle && Some(signal) in Joined(start, es)))
  {
    EventsAreRecorded(stored, fallback, es);
  }
}
