/** When nothing is pending, the file holds the current view: in which runs, and why only in those. */
module ActiveViewConsistency {
  import opened Options
  import opened ActiveViewProtocol

  predicate FaultFree(e: Event) {
    match e
    case WriterWrote(ok) => ok
    case RenameLands(ok) => ok
    case Flush(fault) => fault.NoFault?
    case _ => true
  }

  /** The event is a flush or a turn of the drain loop that decides there is nothing to write. */
  predicate EarlyReturns(s: State, e: Event) {
    && NothingToWrite(s)
    && match e
       case Flush(_) => !s.quitStarted
       case FlushPending(signal) =>
         !s.consumers.Rejects(signal) && s.drain.Idle? && !s.consumers.Join(signal).AllAborted()
       case FlushQuit => !s.quitStarted && s.drain.Idle?
       case DrainResumes =>
         && s.drain.Awaiting? && !Awaited(s) && !s.consumers.AllAborted()
         && s.drain.generation != s.generation
       case _ => false
  }

  /** No rename of another view has landed since persistedActiveView was last set. */
  predicate Confirmed(s: State) {
    s.store.unacknowledged.None? || s.store.unacknowledged == Some(s.activeView)
  }

  predicate Good(s: State, e: Event) {
    FaultFree(e) && (EarlyReturns(s, e) ==> Confirmed(s))
  }

  predicate GoodRun(s: State, es: seq<Event>)
    decreases |es|
  {
    es == [] || (Good(s, es[0]) && GoodRun(Apply(s, es[0]), es[1..]))
  }

  predicate Quiescent(s: State) {
    !s.timerArmed && s.chain.running.None?
  }

  // ----- the invariant of good runs

  function LastTicket(c: Chain): Ticket
    requires c.running.Some?
  {
    if c.waiting == [] then c.running.value.ticket else c.waiting[|c.waiting| - 1]
  }

  /** Nothing valid was stored at the start and no write has ever been scheduled. */
  predicate Pristine(s: State) {
    s.store.persisted.None? && s.generation == 0
  }

  /** What the object believes to be on the disk is there, and it is the current view. */
  predicate Recorded(s: State) {
    && s.store.disk == s.store.persisted
    && (s.store.persisted == Some(s.activeView) || s.lateSet || Pristine(s))
  }

  /** The last write of the chain is up to date and is going to land, or has landed. */
  ghost predicate Fresh(s: State) {
    && s.chain.running.Some?
    && LastTicket(s.chain).generation == s.generation
    && (s.lateSet || LastTicket(s.chain).view == s.activeView)
    && (s.chain.waiting == [] ==>
          match s.chain.running.value.phase
          case Preparing => true
          case Renaming(fate) => fate.Parked? || fate.Landed?
          case Closing => s.store.persisted == s.store.disk == Some(s.chain.running.value.ticket.view))
  }

  /** A synchronous flush has overtaken every write of the chain. */
  ghost predicate Overtaken(s: State) {
    && s.chain.running.Some?
    && LastTicket(s.chain).generation < s.generation
    && !s.chain.In(Renaming(Parked))
    && Recorded(s)
  }

  ghost predicate Consistent(s: State) {
    s.timerArmed || (if s.chain.running.None? then Recorded(s) else Fresh(s) || Overtaken(s))
  }

  lemma ConsistentAfterWriter(s: State, e: Event)
    requires Inv(s) && Consistent(s) && FaultFree(e) && (e.WriterWrote? || e.RenameLands? || e.WriterResumes?)
    ensures Consistent(Apply(s, e))
  {}

  lemma ConsistentAfterClose(s: State)
    requires Inv(s) && Consistent(s)
    ensures Consistent(CloseWriter(s))
  {}

  lemma ConsistentAfterFlush(s: State)
    requires Inv(s) && Consistent(s) && Good(s, Flush(NoFault))
    ensures Consistent(FlushSync(s, NoFault))
  {}

  lemma ConsistentAfterSet(s: State, value: Option<View>)
    requires Inv(s) && Consistent(s)
    ensures Consistent(SetView(s, value))
  {}

  /** A drain event that cancels the timer without enqueueing a write has returned early. */
  lemma CancellingDrainReturnsEarly(s: State, e: Event)
    requires IsDrainEvent(e)
    ensures var t := Apply(s, e);
            s.timerArmed && !t.timerArmed && t.generation == s.generation ==> EarlyReturns(s, e)
  {}

  lemma ConsistentAfterDrain(s: State, t: State, early: bool)
    requires Inv(s) && Consistent(s) && DrainLike(s, t)
    requires s.timerArmed && !t.timerArmed && t.generation == s.generation ==> early
    requires early ==> NothingToWrite(s) && Confirmed(s)
    ensures Consistent(t)
  {}

  lemma ConsistentStep(s: State, e: Event)
    requires Inv(s) && Consistent(s) && Good(s, e)
    ensures Consistent(Apply(s, e))
  {
    if IsDrainEvent(e) {
      DrainEventIsDrainLike(s, e);
      CancellingDrainReturnsEarly(s, e);
      ConsistentAfterDrain(s, Apply(s, e), EarlyReturns(s, e));
    } else {
      match e
      case Set(value) => ConsistentAfterSet(s, value);
      case WriterCloses => ConsistentAfterClose(s);
      case Flush(_) => ConsistentAfterFlush(s);
      case WriterWrote(_) => ConsistentAfterWriter(s, e);
      case RenameLands(_) => ConsistentAfterWriter(s, e);
      case WriterResumes => ConsistentAfterWriter(s, e);
      case _ =>
    }
  }

  lemma {:induction false} ConsistentRun(s: State, es: seq<Event>)
    requires Inv(s) && Consistent(s) && GoodRun(s, es)
    ensures Inv(Run(s, es)) && Consistent(Run(s, es))
    decreases |es|
  {
    if es != [] {
      InvStep(s, es[0]);
      ConsistentStep(s, es[0]);
      ConsistentRun(Apply(s, es[0]), es[1..]);
    }
  }

  // ----- main results

  /** In every good run, whenever no timer is armed and no write is pending, the file holds the
      current view, unless nothing was stored and nothing has been scheduled, or the view was
      changed after the quit flush had started. */
  lemma QuiescentFileIsCurrent(stored: Option<View>, fallback: View, es: seq<Event>)
    requires GoodRun(Initial(stored, fallback), es)
    ensures var s := Run(Initial(stored, fallback), es);
            Quiescent(s) ==>
              || s.store.disk == Some(s.activeView)
              || s.lateSet
              || (s.store.disk.None? && s.generation == 0)
  {
    InitialInv(stored, fallback);
    ConsistentRun(Initial(stored, fallback), es);
  }

  lemma {:induction false} PersistedStays(s: State, es: seq<Event>)
    requires s.store.persisted.Some?
    ensures Run(s, es).store.persisted.Some?
    decreases |es|
  {
    if es != [] {
      DrainEventKeepsStore(s, es[0]);
      PersistedStays(Apply(s, es[0]), es[1..]);
    }
  }

  lemma DrainEventKeepsStore(s: State, e: Event)
    ensures IsDrainEvent(e) ==> Apply(s, e).store == s.store
  {
    if IsDrainEvent(e) {
      DrainEventIsDrainLike(s, e);
    }
  }

  /** From an existing file there is no exception but a view changed after the quit flush started. */
  lemma QuiescentExistingFileIsCurrent(stored: View, fallback: View, es: seq<Event>)
    requires GoodRun(Initial(Some(stored), fallback), es)
    ensures var s := Run(Initial(Some(stored), fallback), es);
            Quiescent(s) && !s.lateSet ==> s.store.disk == Some(s.activeView)
  {
    QuiescentFileIsCurrent(Some(stored), fallback, es);
    PersistedStays(Initial(Some(stored), fallback), es);
    InitialInv(Some(stored), fallback);
    RunKeepsInv(Initial(Some(stored), fallback), es);
  }

  /** The set, timer and writer steps by themselves need no premise but the absence of faults. */
  lemma {:induction false} AsynchronousRunIsGood(s: State, es: seq<Event>)
    requires forall i :: 0 <= i < |es| ==>
               FaultFree(es[i]) && (es[i].Set? || es[i].TimerFires? || IsWriterEvent(es[i]))
    ensures GoodRun(s, es)
    decreases |es|
  {
    if es != [] {
      AsynchronousRunIsGood(Apply(s, es[0]), es[1..]);
    }
  }

  lemma {:induction false} NothingStartsQuitting(s: State, es: seq<Event>)
    requires forall i :: 0 <= i < |es| ==> es[i].Set? || es[i].TimerFires? || IsWriterEvent(es[i])
    requires !s.quitStarted && !s.lateSet
    ensures !Run(s, es).lateSet
    decreases |es|
  {
    if es != [] {
      NothingStartsQuitting(Apply(s, es[0]), es[1..]);
    }
  }

  /** So without flushes and drains, and without faults, the file always catches up: whatever views are set
      and however timers and writes interleave, once none is pending it holds the current one. */
  lemma AsynchronousFileIsCurrent(stored: View, fallback: View, es: seq<Event>)
    requires forall i :: 0 <= i < |es| ==>
               FaultFree(es[i]) && (es[i].Set? || es[i].TimerFires? || IsWriterEvent(es[i]))
    ensures var s := Run(Initial(Some(stored), fallback), es);
            Quiescent(s) ==> s.store.disk == Some(s.activeView)
  {
    var start := Initial(Some(stored), fallback);
    AsynchronousRunIsGood(start, es);
    NothingStartsQuitting(start, es);
    QuiescentExistingFileIsCurrent(stored, fallback, es);
  }

  // ----- progress: what is pending can always be carried out

  function Effort(phase: Phase): nat {
    match phase
    case Preparing => 4
    case Renaming(fate) => if fate.Parked? then 3 else 2
    case Closing => 1
  }

  /** How many steps are left before nothing is pending. */
  function Work(s: State): nat {
    (if s.timerArmed then 5 else 0)
    + (if s.chain.running.Some? then Effort(s.chain.running.value.phase) + 4 * |s.chain.waiting| else 0)
  }

  /** The next thing the timer, the file system or the running write does of its own accord. */
  function NextStep(s: State): Event {
    if s.chain.running.None? then TimerFires
    else match s.chain.running.value.phase
      case Preparing => WriterWrote(true)
      case Renaming(fate) => if fate.Parked? then RenameLands(true) else WriterResumes
      case Closing => WriterCloses
  }

  lemma NextStepProgresses(s: State)
    requires Inv(s) && !Quiescent(s)
    ensures var e := NextStep(s);
            var t := Apply(s, e);
            && Good(s, e) && (e.TimerFires? || IsWriterEvent(e))
            && Work(t) < Work(s)
            && t.activeView == s.activeView && t.lateSet == s.lateSet && t.drain == s.drain
            && t.generation == s.generation && t.quitStarted == s.quitStarted
  {}

  /** Without further requests and faults the timer and the writes run to completion, in a bounded
      number of steps, and then the file holds the current view. */
  lemma {:induction false} PendingWorkReachesTheDisk(s: State) returns (es: seq<Event>)
    requires Inv(s) && Consistent(s)
    ensures GoodRun(s, es) && |es| <= Work(s)
    ensures forall i :: 0 <= i < |es| ==> es[i].TimerFires? || IsWriterEvent(es[i])
    ensures var t := Run(s, es);
            && Inv(t) && Consistent(t) && Quiescent(t)
            && t.activeView == s.activeView && t.generation == s.generation && t.drain == s.drain
            && (t.store.disk == Some(s.activeView) || s.lateSet || Pristine(t))
    decreases Work(s)
  {
    if Quiescent(s) {
      es := [];
    } else {
      var e := NextStep(s);
      NextStepProgresses(s);
      InvStep(s, e);
      ConsistentStep(s, e);
      var rest := PendingWorkReachesTheDisk(Apply(s, e));
      es := [e] + rest;
      assert es[1..] == rest;
    }
  }

  // ----- what a finished drain has done

  /** The step ends the drain without an error: whoever awaits flushPendingAsync is told that it is done. */
  predicate CompletesDrain(s: State, e: Event) {
    Apply(s, e).drain == Settled(true) && s.drain != Settled(true)
  }

  lemma CompletionIsQuiescent(s: State, e: Event)
    requires Inv(s) && CompletesDrain(s, e)
    ensures Quiescent(Apply(s, e))
  {}

  /** In good runs the step that ends the drain leaves nothing pending and the current view on the disk, with
      the exceptions of every quiescent state. */
  lemma FinishedDrainIsCurrent(stored: Option<View>, fallback: View, es: seq<Event>, e: Event)
    requires GoodRun(Initial(stored, fallback), es)
    requires Good(Run(Initial(stored, fallback), es), e) && CompletesDrain(Run(Initial(stored, fallback), es), e)
    ensures var t := Apply(Run(Initial(stored, fallback), es), e);
            && Quiescent(t)
            && (t.store.disk == Some(t.activeView) || t.lateSet || (t.store.disk.None? && t.generation == 0))
  {
    var s := Run(Initial(stored, fallback), es);
    InitialInv(stored, fallback);
    ConsistentRun(Initial(stored, fallback), es);
    CompletionIsQuiescent(s, e);
    InvStep(s, e);
    ConsistentStep(s, e);
  }

  const FAILED_WRITE: seq<Event> :=
    [Set(Some(Activity)), FlushPending(None)] + [WriterWrote(false), WriterCloses]

  /** Without that premise it need not: the error of a write is only reported on the console, and the drain
      that awaits the write completes although the file is stale and nothing is left to correct it. */
  lemma FailedWriteCompletesDrain()
    ensures var s := Run(Initial(Some(Tasks), Terminal), FAILED_WRITE);
            var t := Apply(s, DrainResumes);
            && CompletesDrain(s, DrainResumes) && Quiescent(t)
            && t.activeView == Activity && t.store.disk == Some(Tasks)
  {
    var s0 := Initial(Some(Tasks), Terminal);
    var s2 := Apply(Apply(s0, Set(Some(Activity))), FlushPending(None));
    assert s2.chain == Chain(Some(Writer(Ticket(Activity, 2), Preparing)), [], None) && s2.drain == Awaiting(2);
    RunTwo(s0, Set(Some(Activity)), FlushPending(None));
    RunTwo(s2, WriterWrote(false), WriterCloses);
    RunAppend(s0, [Set(Some(Activity)), FlushPending(None)], [WriterWrote(false), WriterCloses]);
  }

  // ----- when an early return is right

  /** No event changes the view to another one. */
  predicate KeepsView(es: seq<Event>, view: View) {
    forall i :: 0 <= i < |es| && es[i].Set? ==> es[i].value.None? || es[i].value == Some(view)
  }

  /** With nothing pending and persistedActiveView equal to the view, nothing but another view is ever
      written, whatever the file holds. */
  lemma {:induction false} LostViewStaysLost(s: State, es: seq<Event>)
    requires Quiescent(s) && NothingToWrite(s) && KeepsView(es, s.activeView)
    ensures var t := Run(s, es);
            Quiescent(t) && NothingToWrite(t) && t.activeView == s.activeView && t.store.disk == s.store.disk
    decreases |es|
  {
    if es != [] {
      LostViewStaysLost(Apply(s, es[0]), es[1..]);
    }
  }

  /** An early return is right exactly when no rename of another view has landed since
      persistedActiveView was set: whatever faults came before, the file then holds the current
      view. Otherwise it does not, and the loss is permanent: neither further flushes and drains nor
      setting the same view again ever bring that view to the disk. */
  lemma EarlyReturnIsRightIff(s: State, e: Event)
    requires Inv(s) && EarlyReturns(s, e)
    ensures var t := Apply(s, e);
            && Quiescent(t) && t.activeView == s.activeView
            && (Confirmed(s) ==> t.store.disk == Some(s.activeView))
            && (!Confirmed(s) ==>
                  forall es :: KeepsView(es, s.activeView) ==> Run(t, es).store.disk != Some(s.activeView))
  {
    if IsDrainEvent(e) {
      DrainEventIsDrainLike(s, e);
    }
    var t := Apply(s, e);
    if !Confirmed(s) {
      forall es | KeepsView(es, s.activeView) ensures Run(t, es).store.disk != Some(s.activeView) {
        LostViewStaysLost(t, es);
      }
    }
  }

  /** An early return can only be wrong when it has cancelled an armed timer. */
  lemma EarlyReturnWithoutTimerIsRight(stored: Option<View>, fallback: View, es: seq<Event>, e: Event)
    requires GoodRun(Initial(stored, fallback), es)
    requires var s := Run(Initial(stored, fallback), es); EarlyReturns(s, e) && !s.timerArmed
    ensures Confirmed(Run(Initial(stored, fallback), es))
  {
    InitialInv(stored, fallback);
    ConsistentRun(Initial(stored, fallback), es);
  }

  const OVERLAPPED_SWITCH: seq<Event> :=
    [Set(Some(Activity)), TimerFires] + [WriterWrote(true), Set(Some(Tasks))]
    + ([RenameLands(true), WriterResumes] + [WriterCloses])

  lemma OverlappedSwitchRun()
    ensures var s := Run(Initial(Some(Tasks), Terminal), OVERLAPPED_SWITCH);
            && s.timerArmed && !s.quitStarted && s.drain.Idle? && !s.lateSet && NothingToWrite(s)
            && s.activeView == Tasks && s.store.disk == Some(Activity)
            && s.consumers == Consumers({}, 0, {})
  {
    var s0 := Initial(Some(Tasks), Terminal);
    var s2 := Apply(Apply(s0, Set(Some(Activity))), TimerFires);
    var s4 := Apply(Apply(s2, WriterWrote(true)), Set(Some(Tasks)));
    var s6 := Apply(Apply(s4, RenameLands(true)), WriterResumes);
    assert s4.chain == Chain(Some(Writer(Ticket(Activity, 1), Renaming(Parked))), [], Some(1));
    RunTwo(s0, Set(Some(Activity)), TimerFires);
    RunTwo(s2, WriterWrote(true), Set(Some(Tasks)));
    RunTwo(s4, RenameLands(true), WriterResumes);
    RunAppend(s4, [RenameLands(true), WriterResumes], [WriterCloses]);
    RunAppend(s0, [Set(Some(Activity)), TimerFires], [WriterWrote(true), Set(Some(Tasks))]);
    RunAppend(s0, [Set(Some(Activity)), TimerFires] + [WriterWrote(true), Set(Some(Tasks))],
              [RenameLands(true), WriterResumes] + [WriterCloses]);
  }

  /** The run that loses an update. While the rename of Activity is parked, the view goes back to
      Tasks, which is what persistedActiveView still says after that rename has landed. A flush of
      any kind then cancels the timer of the correction and finds nothing to write. */
  lemma EarlyReturnCanLoseTheView(e: Event)
    requires e == Flush(NoFault) || e == FlushPending(None) || e == FlushQuit
    ensures var es := OVERLAPPED_SWITCH + [e];
            var s := Run(Initial(Some(Tasks), Terminal), es);
            && (forall i :: 0 <= i < |es| ==> FaultFree(es[i]))
            && Quiescent(s) && !s.lateSet && s.activeView == Tasks && s.store.disk == Some(Activity)
  {
    OverlappedSwitchRun();
    RunAppend(Initial(Some(Tasks), Terminal), OVERLAPPED_SWITCH, [e]);
    var s := Run(Initial(Some(Tasks), Terminal), OVERLAPPED_SWITCH);
    assert EarlyReturns(s, e);
  }
}
