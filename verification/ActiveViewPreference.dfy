/** The class itself, with its fields updated in place. Each method is one uninterrupted piece of the
    source between two awaits, or one action of the file system, and is proved to take the step of
    the transition system that the results about runs are stated for. */
module ActiveViewPreference {
  import opened Options
  import P = ActiveViewProtocol

  type View = P.View

  class ActiveViewPreference {
    var activeView: View
    var persistedActiveView: Option<View>
    var writeTimer: bool
    var running: Option<P.Writer>
    var waiting: seq<P.Ticket>
    var pendingFlush: P.Drain
    var flushSignals: set<nat>
    var unabortableFlushConsumers: nat
    var writeGeneration: nat
    var inFlightTmpFile: Option<nat>
    var quitFlushStarted: bool
    // The world outside the object: the file, and the signals aborted so far.
    var disk: Option<View>
    var abortedSignals: set<nat>
    ghost var unacknowledged: Option<View>
    ghost var lateSet: bool

    ghost function Model(): P.State
      reads this
    {
      P.State(activeView, writeTimer, writeGeneration, P.Chain(running, waiting, inFlightTmpFile),
              P.Store(persistedActiveView, disk, unacknowledged), pendingFlush,
              P.Consumers(flushSignals, unabortableFlushConsumers, abortedSignals), quitFlushStarted, lateSet)
    }

    constructor (stored: Option<View>, legacyActiveView: Option<View>)
      ensures Model() == P.Initial(stored, if legacyActiveView.Some? then legacyActiveView.value else P.Terminal)
      ensures P.Inv(Model())
    {
      var fallback := if legacyActiveView.Some? then legacyActiveView.value else P.Terminal;
      activeView := if stored.Some? then stored.value else fallback;
      persistedActiveView, disk, unacknowledged := stored, stored, None;
      writeTimer, writeGeneration, inFlightTmpFile := false, 0, None;
      running, waiting, pendingFlush := None, [], P.Idle;
      flushSignals, unabortableFlushConsumers, abortedSignals := {}, 0, {};
      quitFlushStarted, lateSet := false, false;
    }

    method Set(value: Option<View>) returns (changed: bool)
      modifies this
      ensures Model() == P.Apply(old(Model()), P.Set(value))
      ensures changed <==> activeView != old(activeView)
      ensures value.Some? ==> activeView == value.value && (quitFlushStarted || writeTimer || P.NothingToWrite(Model()))
      ensures writeGeneration != old(writeGeneration)
         <==> && value.Some? && !quitFlushStarted
              && (value != persistedActiveView || old(writeTimer) || running.Some?)
    {
      if value.None? {
        return false;
      }
      changed := value.value != activeView;
      lateSet := lateSet || (quitFlushStarted && changed);
      activeView := value.value;
      if value != persistedActiveView || writeTimer || running.Some? {
        ScheduleSave();
      }
    }

    method ScheduleSave()
      modifies this
      ensures Model() == P.ScheduleSave(old(Model()))
    {
      if quitFlushStarted {
        return;
      }
      writeGeneration := writeGeneration + 1;
      writeTimer := true;
    }

    method EnqueueWrite(view: View, generation: nat)
      modifies this
      ensures Model() == old(Model()).(chain := old(Model()).chain.Enqueue(P.Ticket(view, generation)))
    {
      var ticket := P.Ticket(view, generation);
      if running.None? {
        running := Some(P.Writer(ticket, P.Preparing));
      } else {
        waiting := waiting + [ticket];
      }
    }

    method TimerFires()
      modifies this
      ensures Model() == P.Apply(old(Model()), P.TimerFires)
    {
      if writeTimer {
        writeTimer := false;
        EnqueueWrite(activeView, writeGeneration);
      }
    }

    /** The first half of writeAsync, up to `await rename`. */
    method WriteAsync(tempFileWritten: bool)
      modifies this
      ensures Model() == P.Apply(old(Model()), P.WriterWrote(tempFileWritten))
      ensures disk == old(disk) && (inFlightTmpFile == old(inFlightTmpFile) || inFlightTmpFile == Some(writeGeneration))
    {
      if running.Some? && running.value.phase == P.Preparing {
        var ticket := running.value.ticket;
        if !tempFileWritten || ticket.generation != writeGeneration {
          running := Some(P.Writer(ticket, P.Closing));
        } else {
          inFlightTmpFile := Some(ticket.generation);
          running := Some(P.Writer(ticket, P.Renaming(P.Parked)));
        }
      }
    }

    /** The file system carries out the parked rename, or fails to. */
    method RenameLands(ok: bool)
      modifies this
      ensures Model() == P.Apply(old(Model()), P.RenameLands(ok))
    {
      if running.Some? && running.value.phase == P.Renaming(P.Parked) {
        var ticket := running.value.ticket;
        if ok {
          disk, unacknowledged := Some(ticket.view), Some(ticket.view);
          running := Some(P.Writer(ticket, P.Renaming(P.Landed)));
        } else {
          running := Some(P.Writer(ticket, P.Renaming(P.Failed)));
        }
      }
    }

    /** The second half of writeAsync, after `await rename`. */
    method WriteAsyncResumes()
      modifies this
      ensures Model() == P.Apply(old(Model()), P.WriterResumes)
      ensures old(P.Inv(Model())) && persistedActiveView != old(persistedActiveView) ==> persistedActiveView == disk
    {
      if running.None? || !running.value.phase.Renaming? || running.value.phase.fate.Parked? {
        return;
      }
      var ticket, phase := running.value.ticket, running.value.phase;
      if phase.fate.Landed? && ticket.generation == writeGeneration {
        persistedActiveView, unacknowledged := Some(ticket.view), None;
      }
      if inFlightTmpFile == Some(ticket.generation) {
        inFlightTmpFile := None;
      }
      running := Some(P.Writer(ticket, P.Closing));
    }

    /** The promise of the running write settles: pendingWrite is cleared if it is the last one. */
    method WriteSettles()
      modifies this
      ensures Model() == P.Apply(old(Model()), P.WriterCloses)
    {
      if running.Some? && running.value.phase == P.Closing {
        if waiting == [] {
          running := None;
        } else {
          running, waiting := Some(P.Writer(waiting[0], P.Preparing)), waiting[1..];
        }
      }
    }

    /** `unlinkSync` with its ENOENT case: after a landed rename there is no file to remove. */
    method UnlinkInFlightTmpFile()
      requires inFlightTmpFile.Some? && running.Some?
      modifies this
      ensures Model() == old(Model()).(chain := old(Model()).chain.Veto())
    {
      var ticket := running.value.ticket;
      if running.value.phase == P.Renaming(P.Parked) {
        running, inFlightTmpFile := Some(P.Writer(ticket, P.Renaming(P.Vetoed))), None;
      } else if running.value.phase == P.Renaming(P.Failed) {
        inFlightTmpFile := None;
      }
    }

    /** A flush that returns normally leaves the current view on the disk, except for the early return
        (see EarlyReturnIsRightIff for when that is right). */
    method FlushOrThrow(fault: P.FlushFault) returns (threw: bool)
      requires P.Inv(Model())
      modifies this
      ensures Model() == P.Apply(old(Model()), P.Flush(fault))
      ensures !threw && !old(P.NothingToWrite(Model())) ==> disk == Some(activeView) == persistedActiveView
      ensures threw ==> disk == old(disk) && persistedActiveView == old(persistedActiveView)
      ensures threw <==> quitFlushStarted
                         || (&& (old(running).Some? || old(persistedActiveView) != Some(activeView))
                             && (fault.WriteFails? || (old(inFlightTmpFile).Some? && fault.UnlinkFails?)))
      ensures quitFlushStarted ==> Model() == old(Model())
      ensures !quitFlushStarted && old(inFlightTmpFile).Some? && fault.UnlinkFails? ==>
                running == old(running) && waiting == old(waiting) + [P.Ticket(activeView, writeGeneration)]
    {
      if quitFlushStarted {
        return true;
      }
      writeTimer := false;
      writeGeneration := writeGeneration + 1;
      if running.None? && Some(activeView) == persistedActiveView {
        return false;
      }
      if inFlightTmpFile.Some? {
        if fault.UnlinkFails? {
          EnqueueWrite(activeView, writeGeneration);
          return true;
        }
        UnlinkInFlightTmpFile();
      }
      if fault.WriteFails? {
        return true;
      }
      disk := Some(activeView);
      persistedActiveView, unacknowledged := Some(activeView), None;
      return false;
    }

    method FlushAsync()
      modifies this
      ensures Model() == P.Apply(old(Model()), P.FlushQuit)
      ensures quitFlushStarted && disk == old(disk)
    {
      if !quitFlushStarted {
        quitFlushStarted := true;
        var rejected := FlushPendingAsync(None);
      }
    }

    method FlushPendingAsync(signal: Option<nat>) returns (rejected: bool)
      modifies this
      ensures Model() == P.Apply(old(Model()), P.FlushPending(signal))
      ensures rejected <==> signal.Some? && signal.value in abortedSignals
      ensures rejected ==> Model() == old(Model())
      ensures !rejected ==> pendingFlush != P.Idle
    {
      if signal.Some? && signal.value in abortedSignals {
        return true;
      }
      if signal.Some? {
        flushSignals := flushSignals + {signal.value};
      } else {
        unabortableFlushConsumers := unabortableFlushConsumers + 1;
      }
      if pendingFlush == P.Idle {
        DrainTurn();
      }
      return false;
    }

    predicate AllFlushConsumersAborted()
      reads this
    {
      unabortableFlushConsumers == 0 && flushSignals != {} && flushSignals <= abortedSignals
    }

    /** One turn of the drain loop, up to its await. */
    method DrainTurn()
      modifies this
      ensures Model() == P.DrainPass(old(Model()))
      ensures pendingFlush == P.Settled(false)
         <==> && unabortableFlushConsumers == 0 && flushSignals != {}
              && forall n :: n in flushSignals ==> n in abortedSignals
      ensures pendingFlush == P.Settled(true) ==> P.NothingToWrite(Model()) && !writeTimer
      ensures pendingFlush.Awaiting? ==> running.Some? && !writeTimer && pendingFlush.generation == writeGeneration
    {
      if AllFlushConsumersAborted() {
        pendingFlush := P.Settled(false);
        return;
      }
      writeTimer := false;
      if running.None? && Some(activeView) == persistedActiveView {
        pendingFlush := P.Settled(true);
        return;
      }
      writeGeneration := writeGeneration + 1;
      pendingFlush := P.Awaiting(writeGeneration);
      EnqueueWrite(activeView, writeGeneration);
    }

    /** The drain loop after its await: it ends, or takes another turn. */
    method DrainResumes()
      modifies this
      ensures Model() == P.Apply(old(Model()), P.DrainResumes)
      ensures old(pendingFlush) != P.Settled(false) && pendingFlush == P.Settled(false) ==>
                && Model() == old(Model()).(drain := P.Settled(false))
                && unabortableFlushConsumers == 0 && flushSignals != {}
                && forall n :: n in flushSignals ==> n in abortedSignals
    {
      if !pendingFlush.Awaiting? || (running.Some? && running.value.ticket.generation <= pendingFlush.generation) {
        return;
      }
      if AllFlushConsumersAborted() {
        pendingFlush := P.Settled(false);
      } else if pendingFlush.generation == writeGeneration {
        pendingFlush := P.Settled(true);
      } else {
        DrainTurn();
      }
    }

    method AbortSignal(consumer: nat)
      modifies this
      ensures Model() == P.Apply(old(Model()), P.Abort(consumer))
    {
      abortedSignals := abortedSignals + {consumer};
    }

    method DrainForgotten()
      modifies this
      ensures Model() == P.Apply(old(Model()), P.DrainForgotten)
    {
      if pendingFlush.Settled? {
        pendingFlush, flushSignals, unabortableFlushConsumers := P.Idle, {}, 0;
      }
    }
  }
}
