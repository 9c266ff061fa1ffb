/** The queue that persists the Dock icon: a generation guard over a chain of bounded commands. */
module IconQueue {
  import opened Options

  // ----- one bounded command

  /** A command with its two deadlines. `child` says that a process handle exists to be killed. */
  datatype Command = Command(child: bool, settled: bool, fallbackArmed: bool, forceArmed: bool, listening: bool,
                             resolutions: nat, reports: nat)

  datatype Signal =
    | Callback(failed: bool)   // the exec callback, or a throwing exec call
    | FallbackFires
    | ForceFires
    | ExitOrClose

  function Started(child: bool): Command {
    Command(child, false, true, false, false, 0, 0)
  }

  function Settle(c: Command, failed: bool): Command {
    if c.settled then c
    else c.(settled := true, fallbackArmed := false, forceArmed := false, resolutions := c.resolutions + 1,
            reports := c.reports + if failed then 1 else 0)
  }

  function SettleLate(c: Command): Command {
    if c.settled then c
    else c.(settled := true, forceArmed := false, resolutions := c.resolutions + 1, reports := c.reports + 1)
  }

  function Receive(c: Command, signal: Signal): Command {
    match signal
    case Callback(failed) => Settle(c, failed)
    case FallbackFires =>
      if !c.fallbackArmed then c
      else
        var fired := c.(fallbackArmed := false);
        if c.settled then fired
        else if !c.child then SettleLate(fired)
        else fired.(listening := true, forceArmed := true)
    case ForceFires => if c.forceArmed then SettleLate(c.(forceArmed := false)) else c
    case ExitOrClose => if c.listening then SettleLate(c) else c
  }

  function ReceiveAll(c: Command, signals: seq<Signal>): Command
    decreases |signals|
  {
    if signals == [] then c else ReceiveAll(Receive(c, signals[0]), signals[1..])
  }

  /** Settled: resolved once, reported at most once, no timer left. Otherwise a timer is armed that will
      settle it. */
  predicate Sound(c: Command) {
    if c.settled then c.resolutions == 1 && c.reports <= 1 && !c.fallbackArmed && !c.forceArmed
    else c.resolutions == 0 && c.reports == 0 && c.fallbackArmed != c.forceArmed && (c.listening ==> c.forceArmed)
  }

  lemma {:induction false} SoundAfterAll(c: Command, signals: seq<Signal>)
    requires Sound(c)
    ensures Sound(ReceiveAll(c, signals))
    ensures c.settled ==> ReceiveAll(c, signals).resolutions == c.resolutions
    decreases |signals|
  {
    if signals != [] {
      SoundAfterAll(Receive(c, signals[0]), signals[1..]);
    }
  }

  lemma {:induction false} SettledStays(c: Command, signals: seq<Signal>)
    requires c.settled
    ensures ReceiveAll(c, signals).settled
    decreases |signals|
  {
    if signals != [] {
      SettledStays(Receive(c, signals[0]), signals[1..]);
    }
  }

  /** Whatever order the callback, the process events and the deadlines come in, the promise of a
      command resolves at most once; and with both deadlines gone by, exactly once. */
  lemma CommandSettlesOnce(child: bool, before: seq<Signal>, after: seq<Signal>)
    ensures var c := ReceiveAll(Started(child), before);
            c.resolutions <= 1 && c.reports <= 1 && (c.resolutions == 1 <==> c.settled)
    ensures var c := ReceiveAll(Started(child), before);
            var late := ReceiveAll(Receive(Receive(c, FallbackFires), ForceFires), after);
            late.settled && late.resolutions == 1 && !late.fallbackArmed && !late.forceArmed
  {
    SoundAfterAll(Started(child), before);
    var c := ReceiveAll(Started(child), before);
    var expired := Receive(Receive(c, FallbackFires), ForceFires);
    SoundAfterAll(expired, after);
    SettledStays(expired, after);
  }

  /** Of these signals one ends the command: its callback, or the first deadline if there is no process to be
      killed, or else what comes after the first deadline, be it the end of the process or the second one. */
  ghost predicate Ends(child: bool, signals: seq<Signal>) {
    exists i :: 0 <= i < |signals|
                && (signals[i].Callback? || (signals[i].FallbackFires? && (!child || EndsLate(signals, i))))
  }

  ghost predicate EndsLate(signals: seq<Signal>, i: nat) {
    exists j :: i < j < |signals| && (signals[j].ForceFires? || signals[j].ExitOrClose?)
  }

  lemma {:induction false} ReceiveLast(c: Command, signals: seq<Signal>, last: Signal)
    ensures ReceiveAll(c, signals + [last]) == Receive(ReceiveAll(c, signals), last)
    decreases |signals|
  {
    if signals == [] {
      assert [] + [last] == [last] && [last][1..] == [];
    } else {
      assert (signals + [last])[1..] == signals[1..] + [last];
      ReceiveLast(Receive(c, signals[0]), signals[1..], last);
    }
  }

  lemma EndsNext(child: bool, signals: seq<Signal>, last: Signal)
    ensures Ends(child, signals + [last])
       <==> || Ends(child, signals) || last.Callback? || (last.FallbackFires? && !child)
            || ((last.ForceFires? || last.ExitOrClose?) && FallbackFires in signals)
  {
    var all, n := signals + [last], |signals|;
    assert all[n] == last && forall i :: 0 <= i < n ==> all[i] == signals[i];
    if Ends(child, signals) {
      var i :| 0 <= i < n && (signals[i].Callback? || (signals[i].FallbackFires? && (!child || EndsLate(signals, i))));
      if EndsLate(signals, i) {
        var j :| i < j < n && (signals[j].ForceFires? || signals[j].ExitOrClose?);
        assert all[j] == signals[j];
      }
      assert all[i] == signals[i] && (EndsLate(signals, i) ==> EndsLate(all, i));
    }
    if (last.ForceFires? || last.ExitOrClose?) && FallbackFires in signals {
      var i :| 0 <= i < n && signals[i] == FallbackFires;
      assert all[i].FallbackFires? && EndsLate(all, i);
    }
    if Ends(child, all) {
      var i :| 0 <= i < |all| && (all[i].Callback? || (all[i].FallbackFires? && (!child || EndsLate(all, i))));
      if i < n && EndsLate(all, i) {
        var j :| i < j < |all| && (all[j].ForceFires? || all[j].ExitOrClose?);
        assert j < n ==> signals[j] == all[j] && EndsLate(signals, i);
      }
    }
  }

  /** A command has settled if and only if one of the signals so far has ended it; until then it waits for a
      process that has been told to go only once the first deadline is over. */
  lemma {:induction false} SettledIff(child: bool, signals: seq<Signal>)
    ensures var c := ReceiveAll(Started(child), signals);
            && c.child == child && (c.settled <==> Ends(child, signals))
            && (!c.settled ==> (c.fallbackArmed <==> FallbackFires !in signals)
                               && (c.listening <==> FallbackFires in signals)
                               && (c.forceArmed <==> FallbackFires in signals))
    decreases |signals|
  {
    if signals != [] {
      var before, last := signals[..|signals| - 1], signals[|signals| - 1];
      assert signals == before + [last];
      SettledIff(child, before);
      ReceiveLast(Started(child), before, last);
      EndsNext(child, before, last);
    }
  }

  // ----- the queue

  /** `waiting` are the generations enqueued and not begun, `running` the one whose command is awaited;
      `ran` lists the generations whose commands were started, `strays` those given up on at a deadline
      whose process may still be alive; `shown` is the generation whose icon was applied last. */
  datatype State = State(generation: nat, waiting: seq<nat>, running: Option<nat>,
                         ran: seq<nat>, strays: set<nat>, shown: nat)

  const IDLE := State(0, [], None, [], {}, 0)

  datatype Event =
    | Request
    | Begin                    // the next piece of work starts, and checks its generation
    | Completes(applied: bool) // the callback; after an error the icon may be the old one
    | GivesUp                  // settled by a deadline
    | StrayCompletes(generation: nat)   // its icon is applied after all

  function Apply(s: State, e: Event): State {
    match e
    case Request => s.(generation := s.generation + 1, waiting := s.waiting + [s.generation + 1])
    case Begin =>
      if s.running.Some? || s.waiting == [] then s
      else
        var next, rest := s.waiting[0], s.waiting[1..];
        if next != s.generation then s.(waiting := rest)
        else s.(waiting := rest, running := Some(next), ran := s.ran + [next])
    case Completes(applied) =>
      if s.running.None? then s
      else s.(running := None, shown := if applied then s.running.value else s.shown)
    case GivesUp => if s.running.Some? then s.(running := None, strays := s.strays + {s.running.value}) else s
    case StrayCompletes(g) => if g in s.strays then s.(strays := s.strays - {g}, shown := g) else s
  }

  function Run(s: State, es: seq<Event>): State
    decreases |es|
  {
    if es == [] then s else Run(Apply(s, es[0]), es[1..])
  }

  function LastRun(s: State): nat {
    if s.ran == [] then 0 else s.ran[|s.ran| - 1]
  }

  ghost predicate Increasing(gs: seq<nat>) {
    forall i, j :: 0 <= i < j < |gs| ==> gs[i] < gs[j]
  }

  /** The newest request waits at the end of the queue, or its command has been started. */
  ghost predicate Inv(s: State) {
    && Increasing(s.ran) && Increasing(s.waiting)
    && (forall i :: 0 <= i < |s.waiting| ==> LastRun(s) < s.waiting[i] <= s.generation)
    && LastRun(s) <= s.generation
    && (s.waiting != [] ==> s.waiting[|s.waiting| - 1] == s.generation)
    && (s.waiting == [] ==> LastRun(s) == s.generation)
    && (s.running.Some? ==> s.running.value == LastRun(s) && s.ran != [] && s.running.value !in s.strays)
    && (forall g :: g in s.strays ==> g <= LastRun(s))
  }

  lemma RequestInv(s: State)
    requires Inv(s)
    ensures Inv(Apply(s, Request))
  {}

  lemma BeginInv(s: State)
    requires Inv(s)
    ensures Inv(Apply(s, Begin))
  {
    if s.running.None? && s.waiting != [] {
      assert s.waiting[|s.waiting| - 1] == s.generation;
      assert s.waiting[0] == s.generation ==> |s.waiting| == 1;
    }
  }

  lemma InvStep(s: State, e: Event)
    requires Inv(s)
    ensures Inv(Apply(s, e))
  {
    match e
    case Request => RequestInv(s);
    case Begin => BeginInv(s);
    case _ =>
  }

  lemma {:induction false} RunKeepsInv(s: State, es: seq<Event>)
    requires Inv(s)
    ensures Inv(Run(s, es))
    decreases |es|
  {
    if es != [] {
      InvStep(s, es[0]);
      RunKeepsInv(Apply(s, es[0]), es[1..]);
    }
  }

  /** In every run commands are started in strictly increasing generations; and whenever the queue has
      drained, by completion or deadline, the last command started is that of the last request. */
  lemma NewestRequestIsNeverSkipped(es: seq<Event>)
    ensures var s := Run(IDLE, es);
            Increasing(s.ran) && (s.waiting == [] ==> LastRun(s) == s.generation)
  {
    RunKeepsInv(IDLE, es);
  }

  // ----- what is shown

  predicate Drained(s: State) {
    s.waiting == [] && s.running.None?
  }

  function At(es: seq<Event>, k: nat): State
    requires k <= |es|
  {
    Run(IDLE, es[..k])
  }

  /** The k-th event applies the icon of generation g: its command completes, in time or as a stray. */
  predicate TakesEffect(es: seq<Event>, k: nat, g: nat)
    requires k < |es|
  {
    || (es[k] == Completes(true) && At(es, k).running == Some(g))
    || (es[k] == StrayCompletes(g) && g in At(es, k).strays)
  }

  /** The k-th event is the late completion of an older command than g. */
  predicate Overtakes(es: seq<Event>, k: nat, g: nat)
    requires k < |es|
  {
    es[k].StrayCompletes? && es[k].generation < g && es[k].generation in At(es, k).strays
  }

  lemma {:induction false} RunAppend(s: State, a: seq<Event>, b: seq<Event>)
    ensures Run(s, a + b) == Run(Run(s, a), b)
    decreases |a|
  {
    if a == [] {
      assert a + b == b;
    } else {
      assert (a + b)[1..] == a[1..] + b;
      RunAppend(Apply(s, a[0]), a[1..], b);
    }
  }

  lemma AtNext(es: seq<Event>, k: nat)
    requires k < |es|
    ensures At(es, k + 1) == Apply(At(es, k), es[k]) && Inv(At(es, k))
  {
    assert es[..k + 1] == es[..k] + [es[k]];
    RunAppend(IDLE, es[..k], [es[k]]);
    assert [es[k]][1..] == [];
    assert Run(At(es, k), [es[k]]) == Run(Apply(At(es, k), es[k]), []);
    RunKeepsInv(IDLE, es[..k]);
  }

  lemma {:induction false} GenerationGrows(es: seq<Event>, j: nat, k: nat)
    requires j <= k <= |es|
    ensures At(es, j).generation <= At(es, k).generation
    decreases k - j
  {
    if j < k {
      AtNext(es, j);
      GenerationGrows(es, j + 1, k);
    }
  }

  /** The icon shown has taken effect at some point, and nothing has taken effect since. */
  lemma {:induction false} ShownTookEffect(es: seq<Event>, n: nat) returns (k: nat)
    requires n <= |es| && At(es, n).shown > 0
    ensures k < n && TakesEffect(es, k, At(es, n).shown)
    ensures forall j, g :: k < j < n ==> !TakesEffect(es, j, g)
    decreases n
  {
    if n > 0 {
      AtNext(es, n - 1);
      var s, e := At(es, n - 1), es[n - 1];
      if (e == Completes(true) && s.running.Some?) || (e.StrayCompletes? && e.generation in s.strays) {
        k := n - 1;
      } else {
        k := ShownTookEffect(es, n - 1);
      }
    }
  }

  /** The newest request g has its icon shown, and no work is left. */
  ghost predicate Settled(s: State, g: nat) {
    Drained(s) && s.generation == LastRun(s) == s.shown == g && g !in s.strays
  }

  lemma {:induction false} StaysShown(es: seq<Event>, k: nat, n: nat, g: nat)
    requires k <= n <= |es| && Settled(At(es, k), g) && At(es, n).generation == g
    requires forall j :: k <= j < n ==> !Overtakes(es, j, g)
    ensures At(es, n).shown == g
    decreases n - k
  {
    if k < n {
      AtNext(es, k);
      GenerationGrows(es, k + 1, n);
      assert !Overtakes(es, k, g);
      StaysShown(es, k + 1, n, g);
    }
  }

  lemma EffectSettles(es: seq<Event>, k: nat, g: nat)
    requires k < |es| && TakesEffect(es, k, g) && At(es, |es|).generation == g
    ensures Settled(At(es, k + 1), g)
  {
    var s := At(es, k);
    AtNext(es, k);
    GenerationGrows(es, k + 1, |es|);
    assert LastRun(s) == s.generation == g;
  }

  /** A drained queue shows the icon requested last if and only if the command of that request took
      effect and no older one, given up on at its deadline, completed after it. */
  lemma DrainedShowsLastIff(es: seq<Event>)
    requires Drained(At(es, |es|)) && At(es, |es|).generation > 0
    ensures var g := At(es, |es|).generation;
            && (At(es, |es|).shown == g
                <==> exists k :: 0 <= k < |es| && TakesEffect(es, k, g)
                                 && forall j :: k < j < |es| ==> !Overtakes(es, j, g))
  {
    var n, g := |es|, At(es, |es|).generation;
    if At(es, n).shown == g {
      var k := ShownTookEffect(es, n);
      forall j | k < j < n ensures !Overtakes(es, j, g) {
        if es[j].StrayCompletes? {
          assert !TakesEffect(es, j, es[j].generation);
        }
      }
    }
    forall k | 0 <= k < n && TakesEffect(es, k, g) && forall j :: k < j < n ==> !Overtakes(es, j, g)
      ensures At(es, n).shown == g
    {
      EffectSettles(es, k, g);
      StaysShown(es, k + 1, n, g);
    }
  }

  lemma {:induction false} NoStraysWithoutDeadlines(es: seq<Event>, n: nat)
    requires n <= |es| && GivesUp !in es
    ensures At(es, n).strays == {}
    decreases n
  {
    if n > 0 {
      NoStraysWithoutDeadlines(es, n - 1);
      AtNext(es, n - 1);
      assert es[n - 1] in es;
    } else {
      assert es[..0] == [];
    }
  }

  ghost predicate InStep(s: State) {
    Inv(s) && s.strays == {} && (if s.running.Some? then s.shown < s.running.value else s.shown <= LastRun(s))
  }

  /** Without deadlines the icon shown never goes back to an older one. */
  lemma {:induction false} ShownNeverGoesBack(s: State, es: seq<Event>)
    requires InStep(s) && GivesUp !in es
    ensures s.shown <= Run(s, es).shown
    decreases |es|
  {
    if es != [] {
      var t := Apply(s, es[0]);
      InvStep(s, es[0]);
      assert es[0] in es;
      if es[0].Begin? && t.running.Some? && s.running.None? {
        assert t.running.value == s.waiting[0];
      }
      ShownNeverGoesBack(t, es[1..]);
    }
  }

  /** Without deadlines it is enough that the command of the last request did not fail. */
  lemma DrainedShowsLastUnlessFailed(es: seq<Event>)
    requires Drained(At(es, |es|)) && At(es, |es|).generation > 0 && GivesUp !in es
    ensures var g := At(es, |es|).generation;
            && (At(es, |es|).shown == g
                <==> exists k :: 0 <= k < |es| && es[k] == Completes(true) && At(es, k).running == Some(g))
  {
    var n, g := |es|, At(es, |es|).generation;
    DrainedShowsLastIff(es);
    forall k | 0 <= k < n ensures At(es, k).strays == {} {
      NoStraysWithoutDeadlines(es, k);
    }
    forall k | 0 <= k < n && es[k] == Completes(true) && At(es, k).running == Some(g) ensures At(es, n).shown == g {
      assert TakesEffect(es, k, g);
      assert forall j :: k < j < n ==> !Overtakes(es, j, g);
    }
  }

  lemma RunThree(s: State, a: Event, b: Event, c: Event, rest: seq<Event>)
    ensures Run(s, [a, b, c] + rest) == Run(Apply(Apply(Apply(s, a), b), c), rest)
  {
    var t := Apply(s, a);
    RunAppend(s, [a, b, c], rest);
    assert [a, b, c][1..] == [b, c] && [b, c][1..] == [c] && [c][1..] == [];
    assert Run(s, [a, b, c]) == Run(t, [b, c]) == Run(Apply(t, b), [c]);
  }

  /** With a deadline an older icon can win after all: the process given up on completes last. */
  lemma StrayCanWin()
    ensures var s := Run(IDLE, [Request, Begin, GivesUp] + [Request, Begin, Completes(true)] + [StrayCompletes(1)]);
            s.waiting == [] && s.running.None? && s.strays == {} && s.generation == 2 && s.shown == 1
  {
    var first := Apply(Apply(Apply(IDLE, Request), Begin), GivesUp);
    var second := Apply(Apply(Apply(first, Request), Begin), Completes(true));
    assert first.ran == [1] && first.waiting == [] && first == State(1, [], None, [1], {1}, 0);
    assert second.ran == [1, 2] && second.waiting == [] && second.shown == 2 && second.strays == {1};
    assert {1} - {1} == {};
    RunThree(IDLE, Request, Begin, GivesUp, [Request, Begin, Completes(true)] + [StrayCompletes(1)]);
    RunThree(first, Request, Begin, Completes(true), [StrayCompletes(1)]);
    assert [Request, Begin, GivesUp] + [Request, Begin, Completes(true)] + [StrayCompletes(1)]
        == [Request, Begin, GivesUp] + ([Request, Begin, Completes(true)] + [StrayCompletes(1)]);
    assert [StrayCompletes(1)][1..] == [];
    assert Run(second, [StrayCompletes(1)]) == Run(Apply(second, StrayCompletes(1)), []);
  }

  /** And a command that fails leaves the icon of an older request, deadlines or not. */
  lemma FailureKeepsOldIcon()
    ensures var s := Run(IDLE, [Request, Begin, Completes(true)] + ([Request, Begin, Completes(false)] + []));
            Drained(s) && s.generation == 2 && s.shown == 1
  {
    var first := Apply(Apply(Apply(IDLE, Request), Begin), Completes(true));
    assert first == State(1, [], None, [1], {}, 1);
    RunThree(IDLE, Request, Begin, Completes(true), [Request, Begin, Completes(false)] + []);
    RunThree(first, Request, Begin, Completes(false), []);
  }

  // ----- the mutable forms

  /** The closure of one bounded command: the `settled` flag and the two timers. */
  class BoundedCommand {
    var child: bool
    var settled: bool
    var fallbackArmed: bool
    var forceArmed: bool
    var listening: bool
    var resolutions: nat
    var reports: nat

    ghost function Model(): Command
      reads this
    {
      Command(child, settled, fallbackArmed, forceArmed, listening, resolutions, reports)
    }

    constructor (child: bool)
      ensures Model() == Started(child) && Sound(Model())
    {
      this.child, settled, fallbackArmed, forceArmed, listening := child, false, true, false, false;
      resolutions, reports := 0, 0;
    }

    method Finish(failed: bool)
      modifies this
      ensures Model() == Receive(old(Model()), Callback(failed))
      ensures settled && (if old(settled) then Model() == old(Model()) else resolutions == old(resolutions) + 1)
      ensures !old(settled) ==> !fallbackArmed && !forceArmed && reports == old(reports) + if failed then 1 else 0
    {
      if settled {
        return;
      }
      settled, fallbackArmed, forceArmed := true, false, false;
      if failed {
        reports := reports + 1;
      }
      resolutions := resolutions + 1;
    }

    method FinishAfterFallback()
      modifies this
      ensures Model() == SettleLate(old(Model()))
    {
      if settled {
        return;
      }
      settled, forceArmed := true, false;
      reports, resolutions := reports + 1, resolutions + 1;
    }

    method FallbackFires()
      modifies this
      ensures Model() == Receive(old(Model()), Signal.FallbackFires)
      ensures old(fallbackArmed) ==> settled || (forceArmed && listening)
      ensures old(fallbackArmed) && !old(settled) ==>
                (settled <==> !child) && reports == old(reports) + if settled then 1 else 0
    {
      if !fallbackArmed {
        return;
      }
      fallbackArmed := false;
      if settled {
        return;
      }
      if !child {
        FinishAfterFallback();
        return;
      }
      listening, forceArmed := true, true;
    }

    method ForceFallbackFires()
      modifies this
      ensures Model() == Receive(old(Model()), ForceFires)
      ensures old(forceArmed) ==> settled && !forceArmed
      ensures old(forceArmed) && !old(settled) ==> reports == old(reports) + 1
    {
      if !forceArmed {
        return;
      }
      forceArmed := false;
      FinishAfterFallback();
    }

    /** The child is gone: 'exit' or 'close', which are listened to once the fallback has fired. */
    method ChildIsGone()
      modifies this
      ensures Model() == Receive(old(Model()), ExitOrClose)
      ensures old(listening) ==> settled && (old(settled) || resolutions == old(resolutions) + 1)
      ensures reports == old(reports) + if old(listening) && !old(settled) then 1 else 0
    {
      if listening {
        FinishAfterFallback();
      }
    }
  }

  class DockIconPersistence {
    var generation: nat
    var waiting: seq<nat>
    var running: Option<nat>
    var ran: seq<nat>
    var strays: set<nat>
    var shown: nat

    ghost function Model(): State
      reads this
    {
      State(generation, waiting, running, ran, strays, shown)
    }

    constructor ()
      ensures Model() == IDLE && Inv(Model())
    {
      generation, waiting, running, ran, strays, shown := 0, [], None, [], {}, 0;
    }

    method PersistMacDockIcon()
      modifies this
      ensures Model() == Apply(old(Model()), Request)
      ensures generation > old(generation) && waiting == old(waiting) + [generation]
    {
      generation := generation + 1;
      waiting := waiting + [generation];
    }

    /** The next piece of work: a stale one returns without running a command. */
    method BeginWork()
      modifies this
      ensures Model() == Apply(old(Model()), Begin)
      ensures ran == old(ran) || ran == old(ran) + [generation]
    {
      if running.Some? || waiting == [] {
        return;
      }
      var own := waiting[0];
      waiting := waiting[1..];
      if own != generation {
        return;
      }
      running, ran := Some(own), ran + [own];
    }
  }
}
