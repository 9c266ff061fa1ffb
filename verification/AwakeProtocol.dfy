/** Keeping the computer awake while agents work: a resource held through OS calls that may fail, and
    a timer for the next status to go stale. Times are whole milliseconds. */
module AwakeProtocol {
  import opened Options

  datatype Mode = On | Off | Auto

  /** `receivedAt` is None for a time that is not finite. */
  datatype Status = Status(working: bool, receivedAt: Option<int>, observed: bool)

  const STALE_AFTER := 2 * 60 * 60 * 1000

  // ----- the power-save blocker of the operating system

  /** `started` are the blockers in force; `next` is the identifier given out next. */
  datatype Os = Os(started: set<nat>, next: nat)

  /** What the OS calls of one refresh do. A call that throws may or may not have stopped the blocker; a
      start that throws has started nothing. */
  datatype Env = Env(checkThrows: bool, startThrows: bool, startWorks: bool, stopWorks: bool, recheckThrows: bool)

  const FAULTLESS := Env(false, false, true, true, false)

  datatype Held = Held(blockerId: Option<nat>, os: Os)

  function Reconcile(h: Held, throws: bool): Held {
    if h.blockerId.Some? && !throws && h.blockerId.value !in h.os.started then h.(blockerId := None) else h
  }

  function StartBlocker(h: Held, env: Env): Held {
    var checked := Reconcile(h, env.checkThrows);
    if checked.blockerId.Some? || env.startThrows then checked
    else
      var id := h.os.next;
      var started := if env.startWorks then h.os.started + {id} else h.os.started;
      Reconcile(Held(Some(id), Os(started, id + 1)), env.recheckThrows)
  }

  function StopBlocker(h: Held, env: Env): Held {
    if h.blockerId.None? then h
    else
      var started := if env.stopWorks then h.os.started - {h.blockerId.value} else h.os.started;
      Reconcile(h.(os := h.os.(started := started)), env.recheckThrows)
  }

  // ----- which statuses count, and until when

  predicate Counts(s: Status) {
    s.observed && s.working && s.receivedAt.Some?
  }

  function Expiry(s: Status): int
    requires Counts(s)
  {
    s.receivedAt.value + STALE_AFTER
  }

  predicate Eligible(s: Status, now: int) {
    Counts(s) && now <= Expiry(s)
  }

  function EligibleCount(statuses: seq<Status>, now: int): nat {
    if statuses == [] then 0
    else (if Eligible(statuses[0], now) then 1 else 0) + EligibleCount(statuses[1..], now)
  }

  function Earlier(a: Option<int>, b: Option<int>): Option<int> {
    if a.None? then b else if b.None? then a else if a.value <= b.value then a else b
  }

  /** The time the stale timer is set for: the earliest expiry that is still to come. */
  function Deadline(statuses: seq<Status>, now: int): Option<int> {
    if statuses == [] then None
    else
      var last := statuses[|statuses| - 1];
      Earlier(Deadline(statuses[..|statuses| - 1], now),
              if Counts(last) && Expiry(last) > now then Some(Expiry(last)) else None)
  }

  // ----- the service

  datatype State = State(mode: Mode, statuses: seq<Status>, timer: Option<int>, held: Held,
                         published: Option<(Mode, bool)>)

  const INITIAL := State(Off, [], None, Held(None, Os({}, 0)), None)

  predicate ShouldBlock(mode: Mode, statuses: seq<Status>, now: int) {
    mode.On? || (mode.Auto? && EligibleCount(statuses, now) > 0)
  }

  /** A refresh reads the clock twice: to schedule the timer, and then to count the statuses. */
  datatype Clock = Clock(scheduling: int, counting: int)

  function Refresh(s: State, clock: Clock, env: Env): State {
    var active := ShouldBlock(s.mode, s.statuses, clock.counting);
    s.(timer := Deadline(s.statuses, clock.scheduling),
       held := if active then StartBlocker(s.held, env) else StopBlocker(s.held, env),
       published := Some((s.mode, active)))
  }

  datatype Event =
    | SetMode(mode: Mode, clock: Clock, env: Env)
    | SetStatuses(statuses: seq<Status>, clock: Clock, env: Env)
    | TimerFires(clock: Clock, env: Env)
    | Resume(clock: Clock, env: Env)        // power-resume, or a platform assertion failing
    | Dispose(env: Env)
    | OsDrops(id: nat)                  // the OS ends a blocker on its own

  function Apply(s: State, e: Event): State {
    match e
    case SetMode(mode, clock, env) => if s.mode == mode then s else Refresh(s.(mode := mode), clock, env)
    case SetStatuses(statuses, clock, env) => Refresh(s.(statuses := statuses), clock, env)
    case TimerFires(clock, env) =>
      if s.timer.Some? && s.timer.value <= clock.scheduling then Refresh(s, clock, env) else s
    case Resume(clock, env) => Refresh(s, clock, env)
    case Dispose(env) => s.(timer := None, held := StopBlocker(s.held, env))
    case OsDrops(id) => s.(held := s.held.(os := s.held.os.(started := s.held.os.started - {id})))
  }

  function Run(s: State, es: seq<Event>): State
    decreases |es|
  {
    if es == [] then s else Run(Apply(s, es[0]), es[1..])
  }

  // ----- no blocker is lost

  ghost predicate Accounted(h: Held) {
    && (forall id :: id in h.os.started ==> h.blockerId == Some(id))
    && (h.blockerId.Some? ==> h.blockerId.value < h.os.next)
  }

  lemma AccountedStep(s: State, e: Event)
    requires Accounted(s.held)
    ensures Accounted(Apply(s, e).held)
  {}

  lemma {:induction false} AccountedRun(s: State, es: seq<Event>)
    requires Accounted(s.held)
    ensures Accounted(Run(s, es).held)
    decreases |es|
  {
    if es != [] {
      AccountedStep(s, es[0]);
      AccountedRun(Apply(s, es[0]), es[1..]);
    }
  }

  /** In every run, whatever calls throw, at most one blocker is in force, and it is the one the service
      remembers and can stop. */
  lemma BlockerIsNeverLost(es: seq<Event>, a: nat, b: nat)
    requires var s := Run(INITIAL, es); a in s.held.os.started && b in s.held.os.started
    ensures a == b && Run(INITIAL, es).held.blockerId == Some(a)
  {
    AccountedRun(INITIAL, es);
  }

  predicate IsHeld(h: Held) {
    h.blockerId.Some? && h.blockerId.value in h.os.started
  }

  /** A refresh whose calls do not fail holds the blocker exactly when mode and statuses ask for it, however
      many calls have failed before; and what it publishes is that decision. */
  lemma RefreshSettles(es: seq<Event>, clock: Clock)
    ensures var s := Run(INITIAL, es);
            var t := Refresh(s, clock, FAULTLESS);
            && (IsHeld(t.held) <==> ShouldBlock(s.mode, s.statuses, clock.counting))
            && (t.held.os.started != {} <==> ShouldBlock(s.mode, s.statuses, clock.counting))
            && t.published == Some((s.mode, IsHeld(t.held)))
  {
    AccountedRun(INITIAL, es);
  }

  /** An agent observed in this runtime is working and was heard of in the last two hours. */
  ghost predicate SomeAgentWorks(statuses: seq<Status>, now: int) {
    exists i :: 0 <= i < |statuses|
                && statuses[i].observed && statuses[i].working && statuses[i].receivedAt.Some?
                && now - statuses[i].receivedAt.value <= 2 * 60 * 60 * 1000
  }

  /** The event brings news, and the calls it leads to do not fail. */
  predicate Refreshes(s: State, e: Event) {
    match e
    case SetMode(mode, _, env) => mode != s.mode && env == FAULTLESS
    case SetStatuses(_, _, env) => env == FAULTLESS
    case TimerFires(clock, env) => s.timer.Some? && s.timer.value <= clock.scheduling && env == FAULTLESS
    case Resume(_, env) => env == FAULTLESS
    case _ => false
  }

  /** What such an event comes to after any history: in mode `on` a blocker is in force and on record, in mode
      `off` none is, and in automatic mode one is exactly while some agent works. That is what is published. */
  lemma BlockerIsHeldIff(es: seq<Event>, e: Event)
    requires Refreshes(Run(INITIAL, es), e)
    ensures var s := Run(INITIAL, es);
            var t := Apply(s, e);
            var wanted := match t.mode
                          case On => true
                          case Off => false
                          case Auto => SomeAgentWorks(t.statuses, e.clock.counting);
            && (if wanted then t.held.blockerId.Some? && t.held.os.started == {t.held.blockerId.value}
                else t.held.blockerId.None? && t.held.os.started == {})
            && t.published == Some((t.mode, wanted))
            && t.mode == (if e.SetMode? then e.mode else s.mode)
            && t.statuses == if e.SetStatuses? then e.statuses else s.statuses
  {
    var s := Run(INITIAL, es);
    AccountedRun(INITIAL, es);
    AgentWorksIff(Apply(s, e).statuses, e.clock.counting);
  }

  lemma AgentWorksIff(statuses: seq<Status>, now: int)
    ensures SomeAgentWorks(statuses, now) <==> EligibleCount(statuses, now) > 0
  {
    CountIsPositive(statuses, now);
    if i :| 0 <= i < |statuses| && Eligible(statuses[i], now) {
      assert now - statuses[i].receivedAt.value <= 2 * 60 * 60 * 1000;
    }
    if SomeAgentWorks(statuses, now) {
      var i :| 0 <= i < |statuses| && statuses[i].observed && statuses[i].working && statuses[i].receivedAt.Some?
               && now - statuses[i].receivedAt.value <= 2 * 60 * 60 * 1000;
      assert Eligible(statuses[i], now);
    }
  }

  /** Disposing with calls that do not fail leaves no blocker in force and no timer, in any run. */
  lemma DisposeReleases(es: seq<Event>)
    ensures var t := Apply(Run(INITIAL, es), Dispose(FAULTLESS));
            t.held.os.started == {} && t.held.blockerId.None? && t.timer.None?
  {
    AccountedRun(INITIAL, es);
  }

  // ----- the timer

  /** Which of the statuses count as eligible. */
  function EligibleSet(statuses: seq<Status>, now: int): set<nat> {
    set i | 0 <= i < |statuses| && Eligible(statuses[i], now)
  }

  ghost predicate ExpiresAt(statuses: seq<Status>, i: nat, t: int) {
    i < |statuses| && Counts(statuses[i]) && Expiry(statuses[i]) == t
  }

  /** The deadline is the earliest expiry after now. */
  lemma {:induction false} DeadlineIsEarliest(statuses: seq<Status>, now: int)
    ensures var d := Deadline(statuses, now);
            && (d.Some? ==> d.value > now && exists i :: ExpiresAt(statuses, i, d.value))
            && forall i :: 0 <= i < |statuses| && Counts(statuses[i]) && Expiry(statuses[i]) > now ==>
                 d.Some? && d.value <= Expiry(statuses[i])
  {
    if statuses != [] {
      var init, k := statuses[..|statuses| - 1], |statuses| - 1;
      DeadlineIsEarliest(init, now);
      var d := Deadline(init, now);
      if d.Some? {
        var i :| ExpiresAt(init, i, d.value);
        assert ExpiresAt(statuses, i, d.value);
      }
      if Counts(statuses[k]) {
        assert ExpiresAt(statuses, k, Expiry(statuses[k]));
      }
      forall i | 0 <= i < |statuses| && Counts(statuses[i]) && Expiry(statuses[i]) > now
        ensures Deadline(statuses, now).Some? && Deadline(statuses, now).value <= Expiry(statuses[i])
      {
        assert i < k ==> init[i] == statuses[i];
      }
    }
  }

  /** Past the deadline fewer statuses are eligible than at it. */
  lemma EligibleShrinksAfterDeadline(statuses: seq<Status>, now: int, later: int)
    requires Deadline(statuses, now).Some? && Deadline(statuses, now).value < later
    ensures EligibleSet(statuses, later) < EligibleSet(statuses, Deadline(statuses, now).value)
  {
    DeadlineIsEarliest(statuses, now);
    var d := Deadline(statuses, now).value;
    var i :| ExpiresAt(statuses, i, d);
    assert i in EligibleSet(statuses, d) && i !in EligibleSet(statuses, later);
  }

  /** The moment up to which the timer promises that nothing changes; without a timer, for ever. */
  predicate BeforeDeadline(statuses: seq<Status>, now: int, t: int) {
    now <= t && (Deadline(statuses, now).Some? ==> t <= Deadline(statuses, now).value)
  }

  ghost predicate StableUntilDeadline(statuses: seq<Status>, now: int) {
    forall t :: BeforeDeadline(statuses, now, t) ==> EligibleSet(statuses, t) == EligibleSet(statuses, now)
  }

  /** The set of eligible statuses stays as it is until the timer fires if and only if no status expires
      exactly at the refresh: such a status still counts, but arms no timer. */
  lemma StableUntilDeadlineIff(statuses: seq<Status>, now: int)
    ensures StableUntilDeadline(statuses, now) <==> forall i :: !ExpiresAt(statuses, i, now)
  {
    DeadlineIsEarliest(statuses, now);
    if i: nat :| ExpiresAt(statuses, i, now) {
      assert BeforeDeadline(statuses, now, now + 1);
      assert i in EligibleSet(statuses, now) && i !in EligibleSet(statuses, now + 1);
    } else {
      forall t | BeforeDeadline(statuses, now, t) ensures EligibleSet(statuses, t) == EligibleSet(statuses, now) {
        forall i | 0 <= i < |statuses| ensures Eligible(statuses[i], t) <==> Eligible(statuses[i], now) {
          assert !ExpiresAt(statuses, i, now);
        }
      }
    }
  }

  lemma {:induction false} CountIsPositive(statuses: seq<Status>, now: int)
    ensures EligibleCount(statuses, now) > 0 <==> exists i :: 0 <= i < |statuses| && Eligible(statuses[i], now)
  {
    if statuses != [] {
      CountIsPositive(statuses[1..], now);
      if i :| 0 <= i < |statuses| && Eligible(statuses[i], now) {
        assert i > 0 ==> statuses[1..][i - 1] == statuses[i];
      }
      if i :| 0 <= i < |statuses[1..]| && Eligible(statuses[1..][i], now) {
        assert statuses[i + 1] == statuses[1..][i];
      }
    }
  }

  /** In automatic mode a faultless refresh leaves the blocker held with no timer to end it exactly when
      the last status to expire does so at that very moment, the clock not advancing meanwhile. */
  lemma HeldWithoutTimerIff(es: seq<Event>, now: int, delay: nat)
    requires Run(INITIAL, es).mode.Auto?
    ensures var s := Run(INITIAL, es);
            var t := Refresh(s, Clock(now, now + delay), FAULTLESS);
            IsHeld(t.held) && t.timer.None? <==>
              && delay == 0
              && (exists i :: ExpiresAt(s.statuses, i, now))
              && forall i :: 0 <= i < |s.statuses| && Counts(s.statuses[i]) ==> Expiry(s.statuses[i]) <= now
  {
    var s := Run(INITIAL, es);
    RefreshSettles(es, Clock(now, now + delay));
    CountIsPositive(s.statuses, now + delay);
    DeadlineIsEarliest(s.statuses, now);
    if i :| 0 <= i < |s.statuses| && Eligible(s.statuses[i], now + delay) {
      assert Expiry(s.statuses[i]) <= now ==> ExpiresAt(s.statuses, i, now);
    }
    if i: nat :| ExpiresAt(s.statuses, i, now) {
      assert Eligible(s.statuses[i], now);
    }
  }

  function At(now: int): Clock {
    Clock(now, now)
  }

  /** So a stale timer that fires on the dot does not release the blocker of the only working agent, and
      nothing else will: a timer one millisecond late does. */
  lemma PunctualTimerKeepsBlocker(receivedAt: int)
    ensures var status := Status(true, Some(receivedAt), true);
            var expiry := receivedAt + STALE_AFTER;
            var armed := Run(INITIAL, [SetMode(Auto, At(receivedAt), FAULTLESS),
                                       SetStatuses([status], At(receivedAt), FAULTLESS)]);
            && armed.timer == Some(expiry) && IsHeld(armed.held)
            && var punctual := Apply(armed, TimerFires(At(expiry), FAULTLESS));
               var late := Apply(armed, TimerFires(At(expiry + 1), FAULTLESS));
               && IsHeld(punctual.held) && punctual.timer.None?
               && !IsHeld(late.held) && late.timer.None?
  {
    var status := Status(true, Some(receivedAt), true);
    var es := [SetMode(Auto, At(receivedAt), FAULTLESS), SetStatuses([status], At(receivedAt), FAULTLESS)];
    var first := Apply(INITIAL, es[0]);
    assert es[1..] == [es[1]] && es[1..][1..] == [];
    var armed := Apply(first, es[1]);
    assert Run(INITIAL, es) == Run(first, es[1..]) == Run(armed, []) == armed;
    forall now: int ensures EligibleCount([status], now) == if now <= receivedAt + STALE_AFTER then 1 else 0 {
      assert [status][1..] == [];
    }
    forall now: int
      ensures Deadline([status], now) == if receivedAt + STALE_AFTER > now then Some(receivedAt + STALE_AFTER) else None
    {
      assert [status][..0] == [];
    }
  }
}
