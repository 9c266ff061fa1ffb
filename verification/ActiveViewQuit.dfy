/** The quit flush is the final write. */
module ActiveViewQuit {
  import opened Options
  import opened ActiveViewProtocol
  import opened ActiveViewConsistency

  lemma OnlyTheDrainRaisesTheGeneration(s: State, e: Event)
    requires Inv(s) && s.quitStarted
    ensures var t := Apply(s, e);
            t.quitStarted && t.generation == s.generation + if IsTurn(s, e) then 1 else 0
  {}

  /** The event is a turn of the drain loop that enqueues a write. */
  predicate IsTurn(s: State, e: Event) {
    IsDrainEvent(e) && Apply(s, e).drain.Awaiting? && Apply(s, e).drain != s.drain
      && Apply(s, e).drain.generation == s.generation + 1
  }

  function Turns(s: State, es: seq<Event>): nat
    decreases |es|
  {
    if es == [] then 0 else (if IsTurn(s, es[0]) then 1 else 0) + Turns(Apply(s, es[0]), es[1..])
  }

  /** After the quit flush has started the generation counts the turns of the drain loop: nothing else
      raises it. */
  lemma {:induction false} GenerationCountsTurns(s: State, es: seq<Event>)
    requires Inv(s) && s.quitStarted
    ensures Run(s, es).generation == s.generation + Turns(s, es)
    decreases |es|
  {
    if es != [] {
      InvStep(s, es[0]);
      OnlyTheDrainRaisesTheGeneration(s, es[0]);
      GenerationCountsTurns(Apply(s, es[0]), es[1..]);
    }
  }

  /** The drain is on its last turn, or has one more to go within `limit`, or is over and has left
      nothing behind that could touch the file. */
  ghost predicate Finishing(s: State, limit: nat) {
    && s.quitStarted
    && s.generation <= limit
    && match s.drain
       case Awaiting(g) => s.consumers.unabortable > 0 && (g == s.generation || s.generation < limit)
       case _ => Quiescent(s)
  }

  lemma FinishingStep(s: State, e: Event, limit: nat)
    requires Inv(s) && Finishing(s, limit) && !e.FlushPending?
    ensures Finishing(Apply(s, e), limit)
  {
    match e
    case DrainResumes =>
    case _ =>
  }

  lemma {:induction false} FinishingRun(s: State, es: seq<Event>, limit: nat)
    requires Inv(s) && Finishing(s, limit)
    requires forall i :: 0 <= i < |es| ==> !es[i].FlushPending?
    ensures Inv(Run(s, es)) && Finishing(Run(s, es), limit)
    decreases |es|
  {
    if es != [] {
      InvStep(s, es[0]);
      FinishingStep(s, es[0], limit);
      FinishingRun(Apply(s, es[0]), es[1..], limit);
    }
  }

  /** The drain that flushAsync is given has not returned already with work left. */
  predicate JoinsLiveDrain(s: State) {
    s.drain.Settled? ==> Quiescent(s)
  }

  /** Once flushAsync has started, the drain makes at most one turn beyond the one in progress, and
      from the moment it is over no timer and no write is left. This holds for every continuation
      without another flush request, if and only if the drain it joined had not already returned
      with a timer armed or a write pending. */
  lemma QuitLeavesNothingBehindIff(s: State)
    requires Inv(s) && !s.quitStarted
    ensures JoinsLiveDrain(s) <==>
              forall es: seq<Event> :: (forall i :: 0 <= i < |es| ==> !es[i].FlushPending?) ==>
                var t := Run(Apply(s, FlushQuit), es);
                t.generation <= s.generation + 1 && (!t.drain.Awaiting? ==> Quiescent(t))
  {
    var q := Apply(s, FlushQuit);
    if JoinsLiveDrain(s) {
      InvStep(s, FlushQuit);
      assert Finishing(q, s.generation + 1);
      forall es: seq<Event> | forall i :: 0 <= i < |es| ==> !es[i].FlushPending?
        ensures var t := Run(q, es); t.generation <= s.generation + 1 && (!t.drain.Awaiting? ==> Quiescent(t))
      {
        FinishingRun(q, es, s.generation + 1);
      }
    } else {
      assert Run(q, []) == q;
    }
  }

  /** In a good run with a quit flush that joined no drain already over, the file holds the current
      view as soon as the drain is over, unless the view was changed after the quit flush started. */
  lemma {:induction false} QuitFlushPersistsTheView(stored: View, fallback: View, before: seq<Event>, after: seq<Event>)
    requires GoodRun(Initial(Some(stored), fallback), before + [FlushQuit] + after)
    requires forall i :: 0 <= i < |after| ==> !after[i].FlushPending?
    requires var s := Run(Initial(Some(stored), fallback), before); !s.quitStarted && JoinsLiveDrain(s)
    ensures var t := Run(Initial(Some(stored), fallback), before + [FlushQuit] + after);
            !t.drain.Awaiting? && !t.lateSet ==> t.store.disk == Some(t.activeView)
  {
    var init := Initial(Some(stored), fallback);
    var s := Run(init, before);
    InitialInv(Some(stored), fallback);
    RunKeepsInv(init, before);
    RunAppend(init, before, [FlushQuit]);
    RunAppend(init, before + [FlushQuit], after);
    assert Run(Apply(s, FlushQuit), []) == Apply(s, FlushQuit);
    QuitLeavesNothingBehindIff(s);
    QuiescentExistingFileIsCurrent(stored, fallback, before + [FlushQuit] + after);
  }

  /** The premise of the two results above can fail, within one turn of the event loop: a flush that
      finds nothing to write has returned but is still remembered, the view is set, and flushAsync is
      handed the finished flush. The timer stays armed although the quit flush counts as done, and its
      write reaches the disk after that. */
  lemma QuitCanJoinAFinishedDrain()
    ensures var s := Run(Initial(Some(Tasks), Terminal), [FlushPending(None), Set(Some(Activity))]);
            && !s.quitStarted && !JoinsLiveDrain(s)
            && var done := Run(s, [FlushQuit, DrainForgotten]);
               && done.quitStarted && done.drain.Idle? && done.timerArmed
               && done.activeView == Activity && done.store.disk == Some(Tasks)
               && Run(done, [TimerFires, WriterWrote(true)] + [RenameLands(true)]).store.disk == Some(Activity)
  {
    var s := Run(Initial(Some(Tasks), Terminal), [FlushPending(None), Set(Some(Activity))]);
    var done := Run(s, [FlushQuit, DrainForgotten]);
    RunTwo(Initial(Some(Tasks), Terminal), FlushPending(None), Set(Some(Activity)));
    RunTwo(s, FlushQuit, DrainForgotten);
    RunTwo(done, TimerFires, WriterWrote(true));
    RunAppend(done, [TimerFires, WriterWrote(true)], [RenameLands(true)]);
  }

  lemma {:induction false} GoodRunCompose(s: State, es: seq<Event>, rest: seq<Event>)
    requires GoodRun(s, es) && GoodRun(Run(s, es), rest)
    ensures GoodRun(s, es + rest)
    decreases |es|
  {
    if es == [] {
      assert es + rest == rest;
    } else {
      assert (es + rest)[1..] == es[1..] + rest;
      GoodRunCompose(Apply(s, es[0]), es[1..], rest);
    }
  }

  /** With nothing pending, one turn of the quit drain ends it or starts its last write. */
  lemma QuitDrainTurn(s: State, limit: nat)
    requires Inv(s) && Consistent(s) && Finishing(s, limit) && Quiescent(s) && s.drain.Awaiting?
    ensures Good(s, DrainResumes)
    ensures var t := Apply(s, DrainResumes);
            && Inv(t) && Consistent(t) && Finishing(t, limit)
            && (t.drain.Awaiting? ==> s.generation < t.generation)
  {
    InvStep(s, DrainResumes);
    ConsistentStep(s, DrainResumes);
    FinishingStep(s, DrainResumes, limit);
  }

  /** The quit drain can always finish: when the pending writes are carried out and the drain is
      resumed after them, it is over after its last turn. */
  lemma {:induction false} QuitDrainCompletes(s: State, limit: nat) returns (es: seq<Event>)
    requires Inv(s) && Consistent(s) && Finishing(s, limit)
    ensures GoodRun(s, es)
    ensures forall i :: 0 <= i < |es| ==> es[i].TimerFires? || IsWriterEvent(es[i]) || es[i].DrainResumes?
    ensures var t := Run(s, es); !t.drain.Awaiting? && Quiescent(t)
    decreases if s.drain.Awaiting? then limit + 1 - s.generation else 0
  {
    if !s.drain.Awaiting? {
      es := [];
    } else {
      var writes := PendingWorkReachesTheDisk(s);
      FinishingRun(s, writes, limit);
      var idle := Run(s, writes);
      QuitDrainTurn(idle, limit);
      var rest := QuitDrainCompletes(Apply(idle, DrainResumes), limit);
      var turn := [DrainResumes] + rest;
      assert turn[1..] == rest;
      es := writes + turn;
      GoodRunCompose(s, writes, turn);
      RunAppend(s, writes, turn);
    }
  }
}
