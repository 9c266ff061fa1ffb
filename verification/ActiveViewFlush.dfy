/** A synchronous flush is final for every write enqueued before it. */
module ActiveViewFlush {
  import opened Options
  import opened ActiveViewProtocol

  /** The flush neither throws nor takes its early return. */
  predicate WritesThrough(s: State, fault: FlushFault) {
    && !s.quitStarted
    && !NothingToWrite(s)
    && !fault.WriteFails?
    && !(s.chain.claim.Some? && fault.UnlinkFails?)
  }

  /** No write enqueued up to generation `mark` can still reach the disk. */
  ghost predicate Spent(c: Chain, mark: nat) {
    && (c.running.Some? ==> c.Generation() != mark && (c.Generation() < mark ==> !c.In(Renaming(Parked))))
    && (forall i :: 0 <= i < |c.waiting| ==> c.waiting[i].generation != mark)
  }

  ghost predicate Superseded(s: State, mark: nat) {
    mark <= LastEnqueued(s) && Spent(s.chain, mark)
  }

  /** The disk changes only by a later flush, or by the landing of a write enqueued after `mark`. */
  ghost predicate ChangesFairly(s: State, e: Event, mark: nat) {
    Apply(s, e).store.disk != s.store.disk ==>
      e.Flush? || (e.RenameLands? && s.chain.running.Some? && mark < s.chain.Generation())
  }

  lemma SupersededByCheck(s: State, ok: bool, mark: nat)
    requires Inv(s) && Superseded(s, mark)
    ensures Superseded(CheckGeneration(s, ok), mark)
  {}

  lemma SupersededByLanding(s: State, ok: bool, mark: nat)
    requires Inv(s) && Superseded(s, mark)
    ensures Superseded(LandRename(s, ok), mark)
    ensures LandRename(s, ok).store != s.store ==> mark < s.chain.Generation()
  {}

  lemma SupersededByResuming(s: State, mark: nat)
    requires Inv(s) && Superseded(s, mark)
    ensures Superseded(ResumeWriter(s), mark) && ResumeWriter(s).store.disk == s.store.disk
  {}

  lemma SupersededByClosing(s: State, mark: nat)
    requires Inv(s) && Superseded(s, mark)
    ensures Superseded(CloseWriter(s), mark)
  {}

  lemma SupersededByFlush(s: State, fault: FlushFault, mark: nat)
    requires Inv(s) && Superseded(s, mark)
    ensures Superseded(FlushSync(s, fault), mark)
  {}

  lemma SupersededByDrain(s: State, t: State, mark: nat)
    requires Inv(s) && Superseded(s, mark) && DrainLike(s, t)
    ensures Superseded(t, mark)
  {}

  lemma SupersededStep(s: State, e: Event, mark: nat)
    requires Inv(s) && Superseded(s, mark)
    ensures Superseded(Apply(s, e), mark) && ChangesFairly(s, e, mark)
  {
    if IsDrainEvent(e) {
      DrainEventIsDrainLike(s, e);
      SupersededByDrain(s, Apply(s, e), mark);
    } else {
      match e
      case WriterWrote(ok) => SupersededByCheck(s, ok, mark);
      case RenameLands(ok) => SupersededByLanding(s, ok, mark);
      case WriterResumes => SupersededByResuming(s, mark);
      case WriterCloses => SupersededByClosing(s, mark);
      case Flush(fault) => SupersededByFlush(s, fault, mark);
      case _ =>
    }
  }

  lemma {:induction false} SupersededRun(s: State, es: seq<Event>, mark: nat)
    requires Inv(s) && Superseded(s, mark)
    ensures Inv(Run(s, es)) && Superseded(Run(s, es), mark)
    decreases |es|
  {
    if es != [] {
      InvStep(s, es[0]);
      SupersededStep(s, es[0], mark);
      SupersededRun(Apply(s, es[0]), es[1..], mark);
    }
  }

  /** A flush that wrote has put the current view on the disk, and no write enqueued earlier ever
      changes the disk again, whichever point it had reached: in every continuation `es`, a step `e`
      that changes the disk is another flush or the landing of a rename enqueued later. */
  lemma FlushVetoesEarlierWrites(s: State, fault: FlushFault, es: seq<Event>, e: Event)
    requires Inv(s) && WritesThrough(s, fault)
    ensures var flushed := Apply(s, Flush(fault));
            && flushed.store.disk == Some(s.activeView)
            && ChainInOrder(s.chain, flushed.generation - 1)
            && ChangesFairly(Run(flushed, es), e, flushed.generation)
  {
    var flushed := Apply(s, Flush(fault));
    InvStep(s, Flush(fault));
    SupersededRun(flushed, es, flushed.generation);
    SupersededStep(Run(flushed, es), e, flushed.generation);
  }

  /** The file holds the current view, and so does every write that can still land. */
  ghost predicate Pinned(s: State, mark: nat) {
    && s.store.disk == Some(s.activeView)
    && (s.chain.running.Some? && mark < s.chain.Generation() ==> s.chain.running.value.ticket.view == s.activeView)
    && (forall i :: 0 <= i < |s.chain.waiting| && mark < s.chain.waiting[i].generation ==>
          s.chain.waiting[i].view == s.activeView)
  }

  lemma PinnedByLanding(s: State, ok: bool, mark: nat)
    requires Inv(s) && Superseded(s, mark) && Pinned(s, mark)
    ensures Pinned(LandRename(s, ok), mark)
  {}

  lemma PinnedByOtherWriter(s: State, e: Event, mark: nat)
    requires Inv(s) && Pinned(s, mark) && IsWriterEvent(e) && !e.RenameLands?
    ensures Pinned(Apply(s, e), mark)
  {}

  lemma PinnedByFlush(s: State, fault: FlushFault, mark: nat)
    requires Inv(s) && Superseded(s, mark) && Pinned(s, mark)
    ensures Pinned(FlushSync(s, fault), mark)
  {}

  lemma PinnedByDrain(s: State, t: State, mark: nat)
    requires Inv(s) && Pinned(s, mark) && DrainLike(s, t)
    ensures Pinned(t, mark)
  {}

  lemma PinnedStep(s: State, e: Event, mark: nat)
    requires Inv(s) && Superseded(s, mark) && Pinned(s, mark) && !e.Set?
    ensures Pinned(Apply(s, e), mark) && Apply(s, e).activeView == s.activeView
  {
    if e.RenameLands? {
      PinnedByLanding(s, e.ok, mark);
    } else if IsWriterEvent(e) {
      PinnedByOtherWriter(s, e, mark);
    } else if IsDrainEvent(e) {
      DrainEventIsDrainLike(s, e);
      PinnedByDrain(s, Apply(s, e), mark);
    } else if e.Flush? {
      PinnedByFlush(s, e.fault, mark);
    }
  }

  lemma {:induction false} PinnedRun(s: State, es: seq<Event>, mark: nat)
    requires Inv(s) && Superseded(s, mark) && Pinned(s, mark)
    requires forall i :: 0 <= i < |es| ==> !es[i].Set?
    ensures Run(s, es).store.disk == Some(s.activeView)
    decreases |es|
  {
    if es != [] {
      InvStep(s, es[0]);
      SupersededStep(s, es[0], mark);
      PinnedStep(s, es[0], mark);
      PinnedRun(Apply(s, es[0]), es[1..], mark);
    }
  }

  /** Until the view is set again, the file keeps the flushed view through every interleaving of
      timers, writers, drains and further flushes, with any disk faults among them. */
  lemma FlushHoldsUntilNextSet(s: State, fault: FlushFault, es: seq<Event>)
    requires Inv(s) && WritesThrough(s, fault)
    requires forall i :: 0 <= i < |es| ==> !es[i].Set?
    ensures Run(Apply(s, Flush(fault)), es).store.disk == Some(s.activeView)
  {
    var flushed := Apply(s, Flush(fault));
    InvStep(s, Flush(fault));
    PinnedRun(flushed, es, flushed.generation);
  }
}
