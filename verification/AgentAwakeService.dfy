/** The service with its fields updated in place; every method takes the step of the protocol that the
    results about runs are stated for. */
module AgentAwakeService {
  import opened Options
  import P = AwakeProtocol

  class AgentAwakeService {
    var mode: P.Mode
    var statuses: seq<P.Status>
    var blockerId: Option<nat>
    var staleTimer: Option<int>
    var lastPublishedStatus: Option<(P.Mode, bool)>
    // The operating system: the blockers in force, and the identifier it gives out next.
    var osStarted: set<nat>
    var osNext: nat

    ghost function Model(): P.State
      reads this
    {
      P.State(mode, statuses, staleTimer, P.Held(blockerId, P.Os(osStarted, osNext)), lastPublishedStatus)
    }

    constructor ()
      ensures Model() == P.INITIAL
    {
      mode, statuses, blockerId, staleTimer, lastPublishedStatus := P.Off, [], None, None, None;
      osStarted, osNext := {}, 0;
    }

    method SetMode(newMode: P.Mode, clock: P.Clock, env: P.Env)
      modifies this
      ensures Model() == P.Apply(old(Model()), P.SetMode(newMode, clock, env))
    {
      if mode == newMode {
        return;
      }
      mode := newMode;
      Refresh(clock, env);
    }

    method SetStatuses(newStatuses: seq<P.Status>, clock: P.Clock, env: P.Env)
      modifies this
      ensures Model() == P.Apply(old(Model()), P.SetStatuses(newStatuses, clock, env))
    {
      statuses := newStatuses;
      Refresh(clock, env);
    }

    method TimerFires(clock: P.Clock, env: P.Env)
      modifies this
      ensures Model() == P.Apply(old(Model()), P.TimerFires(clock, env))
    {
      if staleTimer.Some? && staleTimer.value <= clock.scheduling {
        staleTimer := None;
        Refresh(clock, env);
      }
    }

    method Dispose(env: P.Env)
      modifies this
      ensures Model() == P.Apply(old(Model()), P.Dispose(env))
    {
      staleTimer := None;
      StopBlocker(env);
    }

    method Refresh(clock: P.Clock, env: P.Env)
      modifies this
      ensures Model() == P.Refresh(old(Model()), clock, env)
      ensures env == P.FAULTLESS && old(P.Accounted(Model().held)) ==>
                && (if mode.On? || (mode.Auto? && P.SomeAgentWorks(statuses, clock.counting))
                    then blockerId.Some? && osStarted == {blockerId.value} else blockerId.None? && osStarted == {})
                && lastPublishedStatus == Some((mode, osStarted != {}))
    {
      P.AgentWorksIff(statuses, clock.counting);
      ScheduleStaleTimer(clock.scheduling);
      var runningStatusCount := GetEligibleRunningStatusCount(clock.counting);
      var shouldBlock := mode.On? || (mode.Auto? && runningStatusCount > 0);
      if shouldBlock {
        StartBlocker(env);
      } else {
        StopBlocker(env);
      }
      if lastPublishedStatus != Some((mode, shouldBlock)) {
        lastPublishedStatus := Some((mode, shouldBlock));
      }
    }

    method GetEligibleRunningStatusCount(now: int) returns (count: nat)
      ensures count == P.EligibleCount(statuses, now)
    {
      count := 0;
      for i := 0 to |statuses|
        invariant count + P.EligibleCount(statuses[i..], now) == P.EligibleCount(statuses, now)
      {
        assert statuses[i..][0] == statuses[i] && statuses[i..][1..] == statuses[i + 1..];
        if P.Eligible(statuses[i], now) {
          count := count + 1;
        }
      }
    }

    method ScheduleStaleTimer(now: int)
      modifies this`staleTimer
      ensures staleTimer == P.Deadline(statuses, now)
    {
      staleTimer := None;
      var earliestExpiry: Option<int> := None;
      for i := 0 to |statuses|
        invariant staleTimer == None && earliestExpiry == P.Deadline(statuses[..i], now)
      {
        var status := statuses[i];
        assert statuses[..i + 1][..i] == statuses[..i] && statuses[..i + 1][i] == status;
        if !P.Counts(status) {
          continue;
        }
        var expiry := P.Expiry(status);
        if expiry <= now {
          continue;
        }
        if earliestExpiry.None? || expiry < earliestExpiry.value {
          earliestExpiry := Some(expiry);
        }
      }
      assert statuses[..|statuses|] == statuses;
      if earliestExpiry.Some? {
        staleTimer := earliestExpiry;
      }
    }

    method StartBlocker(env: P.Env)
      modifies this`blockerId, this`osStarted, this`osNext
      ensures P.Held(blockerId, P.Os(osStarted, osNext))
           == P.StartBlocker(P.Held(old(blockerId), P.Os(old(osStarted), old(osNext))), env)
      ensures env == P.FAULTLESS ==> blockerId.Some? && blockerId.value in osStarted
      ensures !env.checkThrows && !env.recheckThrows && blockerId.Some? ==> blockerId.value in osStarted
      ensures old(blockerId).Some? && old(blockerId).value in old(osStarted) ==>
                blockerId == old(blockerId) && osStarted == old(osStarted) && osNext == old(osNext)
    {
      if blockerId.Some? {
        var stillStarted := ReconcileBlocker(env.checkThrows);
        if stillStarted {
          return;
        }
      }
      if env.startThrows {
        return;
      }
      var id := osNext;
      osNext := osNext + 1;
      if env.startWorks {
        osStarted := osStarted + {id};
      }
      blockerId := Some(id);
      var _ := ReconcileBlocker(env.recheckThrows);
    }

    method StopBlocker(env: P.Env)
      modifies this`blockerId, this`osStarted
      ensures P.Held(blockerId, P.Os(osStarted, osNext))
           == P.StopBlocker(P.Held(old(blockerId), P.Os(old(osStarted), old(osNext))), env)
      ensures env.stopWorks && !env.recheckThrows ==> blockerId.None?
      ensures old(blockerId).Some? && env.stopWorks ==> old(blockerId).value !in osStarted
      ensures old(blockerId).Some? && !env.recheckThrows && blockerId.Some? ==> blockerId.value in osStarted
    {
      if blockerId.None? {
        return;
      }
      if env.stopWorks {
        osStarted := osStarted - {blockerId.value};
      }
      var _ := ReconcileBlocker(env.recheckThrows);
    }

    /** Whether the blocker is taken to be in force; a check that throws counts as yes. */
    method ReconcileBlocker(throws: bool) returns (started: bool)
      modifies this`blockerId
      ensures P.Held(blockerId, P.Os(osStarted, osNext))
           == P.Reconcile(P.Held(old(blockerId), P.Os(osStarted, osNext)), throws)
      ensures started <==> blockerId.Some?
      ensures !throws ==> (started <==> old(blockerId).Some? && old(blockerId).value in osStarted)
    {
      if blockerId.None? {
        return false;
      }
      if throws {
        return true;
      }
      started := blockerId.value in osStarted;
      if !started {
        blockerId := None;
      }
    }
  }
}
