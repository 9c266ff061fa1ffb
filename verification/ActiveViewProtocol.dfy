/** The persistence protocol of the active-view preference as a transition system.

    One JavaScript event loop runs the code; renames land on the disk at a moment of their own.
    A step of the system is one uninterrupted piece of code between two awaits, or one landing.
    An event that is not enabled in a state leaves the state alone, so that "every run" means
    every sequence of events.
 */
module ActiveViewProtocol {
  import opened Options

  datatype View = Terminal | Settings | Tasks | Activity | Automations | Space | Artifacts | Mobile

  // ----- the chain of asynchronous writes

  /** What has become of a dispatched rename: not yet carried out, carried out, its temp file
      removed under it, or failed for another reason. */
  datatype Fate = Parked | Landed | Vetoed | Failed

  /** Preparing: waiting for its turn in the chain or for its temp file to be written.
      Closing: past the rename, or past the generation check that made it give up. */
  datatype Phase = Preparing | Renaming(fate: Fate) | Closing

  /** A write in the promise chain. Its temp path is determined by its generation. */
  datatype Ticket = Ticket(view: View, generation: nat)
  datatype Writer = Writer(ticket: Ticket, phase: Phase)

  /** pendingWrite is null iff nothing is running; `claim` is the generation of inFlightTmpFile. */
  datatype Chain = Chain(running: Option<Writer>, waiting: seq<Ticket>, claim: Option<nat>) {
    predicate In(phase: Phase) {
      running.Some? && running.value.phase == phase
    }

    function Generation(): nat
      requires running.Some?
    {
      running.value.ticket.generation
    }

    function Enter(phase: Phase): Chain
      requires running.Some?
    {
      this.(running := Some(Writer(running.value.ticket, phase)))
    }

    function Enqueue(ticket: Ticket): Chain {
      if running.None? then this.(running := Some(Writer(ticket, Preparing)))
      else this.(waiting := waiting + [ticket])
    }

    function Close(): Chain
      requires running.Some?
    {
      if waiting == [] then this.(running := None)
      else this.(running := Some(Writer(waiting[0], Preparing)), waiting := waiting[1..])
    }

    /** The removal of the in-flight temp file by a synchronous flush. A landed rename has consumed
        that file: the removal then fails with ENOENT and the claim stays. */
    function Veto(): Chain {
      if claim.None? then this
      else if In(Renaming(Parked)) then Enter(Renaming(Vetoed)).(claim := None)
      else if In(Renaming(Failed)) then this.(claim := None)
      else this
    }

    /** The code after `await rename` drops the claim if it is still its own. */
    function Unclaim(): Chain
      requires running.Some?
    {
      if claim == Some(Generation()) then this.(claim := None) else this
    }
  }

  // ----- the file, and what the object believes it to hold

  /** `disk` is what the file holds (None: missing or invalid); `persisted` is persistedActiveView.
      `unacknowledged` is history: the last rename landed since persistedActiveView was set. */
  datatype Store = Store(persisted: Option<View>, disk: Option<View>, unacknowledged: Option<View>) {
    function Land(view: View): Store {
      Store(persisted, Some(view), Some(view))
    }

    function Acknowledge(view: View): Store {
      Store(Some(view), disk, None)
    }

    function Replace(view: View): Store {
      Store(Some(view), Some(view), None)
    }
  }

  // ----- the shared drain and its consumers

  /** Settled: the drain has returned or thrown, but the `finally` that forgets it has not run.
      pendingFlush is null iff Idle. */
  datatype Drain = Idle | Awaiting(generation: nat) | Settled(completed: bool)

  datatype Consumers = Consumers(signals: set<nat>, unabortable: nat, aborted: set<nat>) {
    predicate AllAborted() {
      unabortable == 0 && signals != {} && signals <= aborted
    }

    predicate Rejects(signal: Option<nat>) {
      signal.Some? && signal.value in aborted
    }

    function Join(signal: Option<nat>): Consumers {
      if signal.Some? then this.(signals := signals + {signal.value}) else this.(unabortable := unabortable + 1)
    }

    function Abort(signal: nat): Consumers {
      this.(aborted := aborted + {signal})
    }
  }

  // ----- the whole state

  datatype State = State(
    activeView: View,
    timerArmed: bool,      // writeTimer !== null
    generation: nat,       // writeGeneration
    chain: Chain,
    store: Store,
    drain: Drain,
    consumers: Consumers,
    quitStarted: bool,     // quitFlushStarted, and quitFlushPromise !== null
    lateSet: bool          // history: the view was changed after the quit flush had started
  )

  function Initial(stored: Option<View>, fallback: View): State {
    State(if stored.Some? then stored.value else fallback, false, 0, Chain(None, [], None),
          Store(stored, stored, None), Idle, Consumers({}, 0, {}), false, false)
  }

  datatype FlushFault = NoFault | UnlinkFails | WriteFails

  datatype Event =
    | Set(value: Option<View>)              // None: not a top-level view
    | TimerFires
    | WriterWrote(ok: bool)                 // temp file written, then the generation check
    | RenameLands(ok: bool)
    | WriterResumes                         // the code after `await rename`
    | WriterCloses                          // temp file removed, promise handlers run
    | Flush(fault: FlushFault)              // flushOrThrow
    | FlushPending(signal: Option<nat>)     // flushPendingAsync
    | FlushQuit                             // flushAsync
    | Abort(consumer: nat)
    | DrainResumes
    | DrainForgotten                        // the `finally` of the tracked drain

  // ----- the steps

  function Enqueue(s: State): State {
    s.(chain := s.chain.Enqueue(Ticket(s.activeView, s.generation)))
  }

  function ScheduleSave(s: State): State {
    if s.quitStarted then s else s.(generation := s.generation + 1, timerArmed := true)
  }

  function SetView(s: State, value: Option<View>): State {
    if value.None? then s else
      var changed := s.(activeView := value.value,
                        lateSet := s.lateSet || (s.quitStarted && value.value != s.activeView));
      if value != s.store.persisted || s.timerArmed || s.chain.running.Some? then ScheduleSave(changed) else changed
  }

  function FireTimer(s: State): State {
    if s.timerArmed then Enqueue(s.(timerArmed := false)) else s
  }

  function CheckGeneration(s: State, ok: bool): State {
    if !s.chain.In(Preparing) then s
    else if !ok || s.chain.Generation() != s.generation then s.(chain := s.chain.Enter(Closing))
    else s.(chain := s.chain.Enter(Renaming(Parked)).(claim := Some(s.generation)))
  }

  function LandRename(s: State, ok: bool): State {
    if !s.chain.In(Renaming(Parked)) then s
    else if !ok then s.(chain := s.chain.Enter(Renaming(Failed)))
    else s.(chain := s.chain.Enter(Renaming(Landed)), store := s.store.Land(s.chain.running.value.ticket.view))
  }

  function ResumeWriter(s: State): State {
    if s.chain.running.None? || !s.chain.running.value.phase.Renaming? || s.chain.In(Renaming(Parked)) then s
    else
      var acknowledged := s.chain.In(Renaming(Landed)) && s.chain.Generation() == s.generation;
      s.(chain := s.chain.Unclaim().Enter(Closing),
         store := if acknowledged then s.store.Acknowledge(s.chain.running.value.ticket.view) else s.store)
  }

  function CloseWriter(s: State): State {
    if s.chain.In(Closing) then s.(chain := s.chain.Close()) else s
  }

  predicate NothingToWrite(s: State) {
    s.chain.running.None? && Some(s.activeView) == s.store.persisted
  }

  function FlushSync(s: State, fault: FlushFault): State {
    if s.quitStarted then s
    else
      var raised := s.(timerArmed := false, generation := s.generation + 1);
      if NothingToWrite(s) then raised
      else if s.chain.claim.Some? && fault.UnlinkFails? then Enqueue(raised)
      else
        raised.(chain := s.chain.Veto(),
                store := if fault.WriteFails? then s.store else s.store.Replace(s.activeView))
  }

  /** One turn of the drain loop, up to its await. */
  function DrainPass(s: State): State {
    if s.consumers.AllAborted() then s.(drain := Settled(false))
    else if NothingToWrite(s) then s.(timerArmed := false, drain := Settled(true))
    else
      var generation := s.generation + 1;
      Enqueue(s.(timerArmed := false, generation := generation, drain := Awaiting(generation)))
  }

  function RequestDrain(s: State, signal: Option<nat>): State {
    if s.consumers.Rejects(signal) then s
    else
      var joined := s.(consumers := s.consumers.Join(signal));
      if s.drain.Idle? then DrainPass(joined) else joined
  }

  function RequestQuit(s: State): State {
    if s.quitStarted then s else RequestDrain(s.(quitStarted := true), None)
  }

  /** The write the drain waits for has not settled. Writes settle in the order of their generations
      (`InOrder`), so it is the running one or behind it. */
  predicate Awaited(s: State) {
    s.drain.Awaiting? && s.chain.running.Some? && s.chain.Generation() <= s.drain.generation
  }

  function ResumeDrain(s: State): State {
    if !s.drain.Awaiting? || Awaited(s) then s
    else if s.consumers.AllAborted() then s.(drain := Settled(false))
    else if s.drain.generation == s.generation then s.(drain := Settled(true))
    else DrainPass(s)
  }

  function ForgetDrain(s: State): State {
    if s.drain.Settled? then s.(drain := Idle, consumers := Consumers({}, 0, s.consumers.aborted)) else s
  }

  function Apply(s: State, e: Event): State {
    match e
    case Set(value) => SetView(s, value)
    case TimerFires => FireTimer(s)
    case WriterWrote(ok) => CheckGeneration(s, ok)
    case RenameLands(ok) => LandRename(s, ok)
    case WriterResumes => ResumeWriter(s)
    case WriterCloses => CloseWriter(s)
    case Flush(fault) => FlushSync(s, fault)
    case FlushPending(signal) => RequestDrain(s, signal)
    case FlushQuit => RequestQuit(s)
    case Abort(consumer) => s.(consumers := s.consumers.Abort(consumer))
    case DrainResumes => ResumeDrain(s)
    case DrainForgotten => ForgetDrain(s)
  }

  function Run(s: State, es: seq<Event>): State
    decreases |es|
  {
    if es == [] then s else Run(Apply(s, es[0]), es[1..])
  }

  /** What any of the three drain events does to the write side of the state: at most it cancels
      the timer and enqueues one write with a generation of its own. */
  ghost predicate DrainLike(s: State, t: State) {
    && t.store == s.store && t.activeView == s.activeView && t.lateSet == s.lateSet
    && (|| (t.chain == s.chain && t.generation == s.generation && (t.timerArmed ==> s.timerArmed))
        || (&& t.generation == s.generation + 1 && !t.timerArmed
            && t.chain == s.chain.Enqueue(Ticket(s.activeView, t.generation))))
  }

  predicate IsDrainEvent(e: Event) {
    e.FlushPending? || e.FlushQuit? || e.DrainResumes?
  }

  lemma DrainEventIsDrainLike(s: State, e: Event)
    requires IsDrainEvent(e)
    ensures DrainLike(s, Apply(s, e))
  {}

  predicate IsWriterEvent(e: Event) {
    e.WriterWrote? || e.RenameLands? || e.WriterResumes? || e.WriterCloses?
  }

  // ----- the invariant of every run, faults included

  /** Generations strictly increase along the chain, up to `bound`. */
  ghost predicate InOrder(first: nat, waiting: seq<Ticket>, bound: int) {
    && first <= bound
    && (forall i :: 0 <= i < |waiting| ==> first < waiting[i].generation <= bound)
    && (forall i, j :: 0 <= i < j < |waiting| ==> waiting[i].generation < waiting[j].generation)
  }

  ghost predicate ChainInOrder(c: Chain, bound: int) {
    if c.running.None? then c.waiting == [] else InOrder(c.Generation(), c.waiting, bound)
  }

  /** The claim names the temp file of the running rename, from its dispatch until a flush removes
      the file or the code after the rename drops the claim. */
  ghost predicate ClaimMatches(c: Chain) {
    if c.running.None? || !c.running.value.phase.Renaming? then c.claim == None
    else match c.running.value.phase.fate
      case Parked => c.claim == Some(c.Generation())
      case Landed => c.claim == Some(c.Generation())
      case Vetoed => c.claim == None
      case Failed => c.claim == None || c.claim == Some(c.Generation())
  }

  /** An armed timer owns the current generation; no write has been enqueued with it yet. */
  function LastEnqueued(s: State): int {
    if s.timerArmed then s.generation - 1 else s.generation
  }

  ghost predicate DrainMatches(s: State) {
    match s.drain
    case Idle => s.consumers.signals == {} && s.consumers.unabortable == 0
    case Awaiting(g) => g <= LastEnqueued(s) && (s.consumers.unabortable > 0 || s.consumers.signals != {})
    case Settled(_) => true
  }

  ghost predicate StoreMatches(store: Store) {
    store.disk == if store.unacknowledged.Some? then store.unacknowledged else store.persisted
  }

  ghost predicate LandingMatches(s: State) {
    s.chain.In(Renaming(Landed)) && s.chain.Generation() == s.generation ==>
      s.store.unacknowledged == Some(s.chain.running.value.ticket.view)
  }

  ghost predicate WritesMatch(s: State) {
    && LastEnqueued(s) >= 0
    && ChainInOrder(s.chain, LastEnqueued(s))
    && ClaimMatches(s.chain)
    && StoreMatches(s.store)
    && LandingMatches(s)
  }

  ghost predicate Inv(s: State) {
    WritesMatch(s) && DrainMatches(s)
  }

  lemma EnqueueKeeps(c: Chain, ticket: Ticket, bound: int)
    requires ChainInOrder(c, bound) && bound < ticket.generation && ClaimMatches(c)
    ensures ChainInOrder(c.Enqueue(ticket), ticket.generation) && ClaimMatches(c.Enqueue(ticket))
  {}

  lemma VetoKeeps(c: Chain, bound: int, higher: int)
    requires ChainInOrder(c, bound) && bound < higher && ClaimMatches(c)
    ensures ChainInOrder(c.Veto(), higher) && ClaimMatches(c.Veto())
    ensures c.Veto().running.Some? ==> c.Veto().Generation() <= bound
  {}

  lemma CloseInv(s: State)
    requires Inv(s)
    ensures Inv(CloseWriter(s))
  {}

  lemma CheckInv(s: State, ok: bool)
    requires Inv(s)
    ensures Inv(CheckGeneration(s, ok))
  {}

  lemma LandInv(s: State, ok: bool)
    requires Inv(s)
    ensures Inv(LandRename(s, ok))
  {}

  lemma ResumeInv(s: State)
    requires Inv(s)
    ensures Inv(ResumeWriter(s))
  {}

  lemma FailedFlushInv(s: State, fault: FlushFault)
    requires Inv(s) && !s.quitStarted && !NothingToWrite(s) && s.chain.claim.Some? && fault.UnlinkFails?
    ensures Inv(FlushSync(s, fault))
  {
    EnqueueKeeps(s.chain, Ticket(s.activeView, s.generation + 1), LastEnqueued(s));
  }

  lemma WritingFlushInv(s: State, fault: FlushFault)
    requires Inv(s) && !s.quitStarted && !NothingToWrite(s) && !(s.chain.claim.Some? && fault.UnlinkFails?)
    ensures Inv(FlushSync(s, fault))
  {
    VetoKeeps(s.chain, LastEnqueued(s), s.generation + 1);
  }

  lemma FlushInv(s: State, fault: FlushFault)
    requires Inv(s)
    ensures Inv(FlushSync(s, fault))
  {
    if !s.quitStarted && !NothingToWrite(s) {
      if s.chain.claim.Some? && fault.UnlinkFails? {
        FailedFlushInv(s, fault);
      } else {
        WritingFlushInv(s, fault);
      }
    }
  }

  lemma DrainEnqueueInv(s: State)
    requires WritesMatch(s) && (s.consumers.unabortable > 0 || s.consumers.signals != {})
    requires !s.consumers.AllAborted() && !NothingToWrite(s)
    ensures Inv(DrainPass(s))
  {
    EnqueueKeeps(s.chain, Ticket(s.activeView, s.generation + 1), LastEnqueued(s));
  }

  lemma DrainPassInv(s: State)
    requires WritesMatch(s) && (s.consumers.unabortable > 0 || s.consumers.signals != {})
    ensures Inv(DrainPass(s))
  {
    if !s.consumers.AllAborted() && !NothingToWrite(s) {
      DrainEnqueueInv(s);
    }
  }

  lemma RequestInv(s: State, signal: Option<nat>)
    requires Inv(s)
    ensures Inv(RequestDrain(s, signal))
  {
    if !s.consumers.Rejects(signal) && s.drain.Idle? {
      DrainPassInv(s.(consumers := s.consumers.Join(signal)));
    }
  }

  lemma ResumeDrainInv(s: State)
    requires Inv(s)
    ensures Inv(ResumeDrain(s))
  {
    if s.drain.Awaiting? {
      DrainPassInv(s);
    }
  }

  lemma TimerInv(s: State)
    requires Inv(s)
    ensures Inv(FireTimer(s))
  {
    if s.timerArmed {
      EnqueueKeeps(s.chain, Ticket(s.activeView, s.generation), LastEnqueued(s));
    }
  }

  lemma InvStep(s: State, e: Event)
    requires Inv(s)
    ensures Inv(Apply(s, e))
  {
    match e
    case TimerFires => TimerInv(s);
    case WriterWrote(ok) => CheckInv(s, ok);
    case RenameLands(ok) => LandInv(s, ok);
    case WriterResumes => ResumeInv(s);
    case WriterCloses => CloseInv(s);
    case Flush(fault) => FlushInv(s, fault);
    case FlushPending(signal) => RequestInv(s, signal);
    case FlushQuit => if !s.quitStarted { RequestInv(s.(quitStarted := true), None); }
    case DrainResumes => ResumeDrainInv(s);
    case _ =>
  }

  lemma InitialInv(stored: Option<View>, fallback: View)
    ensures Inv(Initial(stored, fallback))
  {}

  /** Every run keeps the invariant, whatever faults it meets. */
  lemma {:induction false} RunKeepsInv(s: State, es: seq<Event>)
    requires Inv(s)
    ensures Inv(Run(s, es))
    decreases |es|
  {
    if es != [] {
      InvStep(s, es[0]);
      RunKeepsInv(Apply(s, es[0]), es[1..]);
    }
  }

  /** The write the drain waits for is in the chain as long as the drain counts it as unsettled. */
  ghost predicate AwaitedIsQueued(s: State) {
    Awaited(s) ==>
      || s.chain.Generation() == s.drain.generation
      || exists i :: 0 <= i < |s.chain.waiting| && s.chain.waiting[i].generation == s.drain.generation
  }

  lemma AwaitedIsQueuedInLongerChain(s: State, t: State)
    requires AwaitedIsQueued(s) && Inv(s) && t.drain == s.drain
    requires t.chain.running.Some? && s.chain.running.Some? ==> t.chain.Generation() == s.chain.Generation()
    requires s.chain.waiting <= t.chain.waiting
    requires s.chain.running.None? && t.chain.running.Some? ==> LastEnqueued(s) < t.chain.Generation()
    ensures AwaitedIsQueued(t)
  {
    if Awaited(s) && s.chain.Generation() != s.drain.generation {
      var i :| 0 <= i < |s.chain.waiting| && s.chain.waiting[i].generation == s.drain.generation;
      assert t.chain.waiting[i] == s.chain.waiting[i];
    }
  }

  lemma AwaitedIsQueuedAfterClose(s: State)
    requires Inv(s) && AwaitedIsQueued(s)
    ensures AwaitedIsQueued(CloseWriter(s))
  {
    if s.chain.In(Closing) && Awaited(s) && s.chain.Generation() != s.drain.generation {
      var i :| 0 <= i < |s.chain.waiting| && s.chain.waiting[i].generation == s.drain.generation;
      assert i > 0 ==> CloseWriter(s).chain.waiting[i - 1] == s.chain.waiting[i];
    }
  }

  lemma AwaitedIsQueuedAfterDrain(s: State, e: Event)
    requires Inv(s) && AwaitedIsQueued(s) && IsDrainEvent(e)
    ensures AwaitedIsQueued(Apply(s, e))
  {
    var t := Apply(s, e);
    DrainEventIsDrainLike(s, e);
    if t.drain.Awaiting? && t.drain != s.drain && s.chain.running.Some? {
      assert t.chain.waiting[|s.chain.waiting|].generation == t.drain.generation;
    }
  }

  lemma AwaitedIsQueuedStep(s: State, e: Event)
    requires Inv(s) && AwaitedIsQueued(s)
    ensures AwaitedIsQueued(Apply(s, e))
  {
    if IsDrainEvent(e) {
      AwaitedIsQueuedAfterDrain(s, e);
    } else if e.WriterCloses? {
      AwaitedIsQueuedAfterClose(s);
    } else if !e.DrainForgotten? {
      AwaitedIsQueuedInLongerChain(s, Apply(s, e));
    }
  }

  /** The awaited write is in the chain in every run: a drain resumes no earlier and no later than
      the write it enqueued has settled. */
  lemma {:induction false} AwaitedWriteIsQueued(s: State, es: seq<Event>)
    requires Inv(s) && AwaitedIsQueued(s)
    ensures AwaitedIsQueued(Run(s, es))
    decreases |es|
  {
    if es != [] {
      InvStep(s, es[0]);
      AwaitedIsQueuedStep(s, es[0]);
      AwaitedWriteIsQueued(Apply(s, es[0]), es[1..]);
    }
  }

  lemma {:induction false} RunAppend(s: State, es: seq<Event>, rest: seq<Event>)
    ensures Run(s, es + rest) == Run(Run(s, es), rest)
    decreases |es|
  {
    if es == [] {
      assert es + rest == rest;
    } else {
      assert (es + rest)[1..] == es[1..] + rest;
      RunAppend(Apply(s, es[0]), es[1..], rest);
    }
  }

  lemma RunTwo(s: State, e: Event, f: Event)
    ensures Run(s, [e, f]) == Apply(Apply(s, e), f)
  {
    assert [e, f][1..] == [f] && [f][1..] == [];
    assert Run(Apply(s, e), [f]) == Run(Apply(Apply(s, e), f), []);
  }
}
