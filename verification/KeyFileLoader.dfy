/** The code of one process of the key-file protocol, with its retry loops. Before each of its file-system calls
    the other processes act, bounded by what `OthersKeepRely` proves of them. Every method makes the calls of
    the protocol, so that the results about `Load` are about the loader. */
module KeyFileLoader {
  import opened Options
  import opened KeyFileProtocol
  import opened KeyFileCalls

  datatype LockResult = Locked | Holds(key: Key) | Refused

  /** Where the protocol is once the lock has been taken or not. */
  function Place(result: LockResult): Proc {
    match result
    case Locked => Holding
    case Holds(key) => Finished(Returns(key))
    case Refused => Finished(Throws)
  }

  /** Where it is after a turn that has neither taken the lock nor found a key. */
  function AfterTurn(attempt: nat): (p: Proc)
    ensures attempt < LOCK_ATTEMPTS ==> InBounds(p)
  {
    if attempt + 1 < LOCK_ATTEMPTS then Locking(attempt + 1) else LastRead
  }

  /** Where it is after this many renames that found the target busy. */
  function AfterBusy(key: Key, attempts: nat): (p: Proc)
    ensures attempts <= RENAME_ATTEMPTS ==> InBounds(p)
  {
    if attempts < RENAME_ATTEMPTS then Replacing(key, attempts) else Releasing(Throws)
  }

  function Renamed(key: Key, renamed: bool): (p: Proc)
    ensures InBounds(p)
  {
    Releasing(if renamed then Returns(key) else Throws)
  }

  class KeyDirectory {
    var file: Content
    var lock: Option<nat>
    var turns: nat
    ghost var calls: seq<Call>
    const me: nat
    const script: Script

    constructor (me: nat, script: Script, file: Content, lock: Option<nat>)
      ensures this.me == me && this.script == script && Model() == Progress(Directory(file, lock), 0, [])
    {
      this.me, this.script, this.file, this.lock, turns, calls := me, script, file, lock, 0, [];
    }

    ghost function Model(): Progress
      reads this
    {
      Progress(Directory(file, lock), turns, calls)
    }

    /** The other processes act, and the call that is made now gets its answer. */
    method Interfere(ghost place: Proc) returns (env: Env)
      modifies this
      ensures var c := CallAt(me, script, old(Model()), place);
              && file == c.file && lock == c.lock && env == c.env && calls == old(calls) + [c]
              && turns == old(turns) + 1
      ensures Attempts(calls) == old(Attempts(calls)) + if place.Locking? || place.LastOpen? then 1 else 0
    {
      ghost var before := calls;
      calls := calls + [CallAt(me, script, Model(), place)];
      assert calls[..|before|] == before;
      var turn := script(turns);
      env, turns := turn.env, turns + 1;
      if turn.others.Some? && Rely(me, file, lock, turn.others.value.file, turn.others.value.lock) {
        file, lock := turn.others.value.file, turn.others.value.lock;
      }
    }

    method ReadKeyPair(ghost place: Proc) returns (key: Option<Key>)
      requires !place.Replacing? && !place.Releasing? && !place.Locking? && !place.LastOpen?
      modifies this
      ensures Model() == Stepped(me, script, old(Model()), place)
      ensures var c := CallAt(me, script, old(Model()), place);
              key == if c.file.Valid? && c.env.readable then Some(c.file.key) else None
      ensures key.Some? ==> file == Valid(key.value)
      ensures old(lock) != Some(me) ==> lock != Some(me)
      ensures Attempts(calls) == old(Attempts(calls))
    {
      var env := Interfere(place);
      key := if file.Valid? && env.readable then Some(file.key) else None;
    }

    /** Exclusive create of the lock file: None if it exists already. */
    method OpenLock(ghost place: Proc) returns (result: Option<LockResult>)
      requires place.Locking? || place.LastOpen?
      modifies this
      ensures Model() == Stepped(me, script, old(Model()), place)
      ensures var c := CallAt(me, script, old(Model()), place);
              result == if !c.env.io.Works? then Some(Refused) else if c.lock.None? then Some(Locked) else None
      ensures if result == Some(Locked) then lock == Some(me) else old(lock) != Some(me) ==> lock != Some(me)
      ensures Attempts(calls) == old(Attempts(calls)) + 1
    {
      var env := Interfere(place);
      if !env.io.Works? {
        return Some(Refused);
      } else if lock.None? {
        lock := Some(me);
        return Some(Locked);
      }
      return None;
    }

    /** One turn of the loop that waits for the lock: None if it is to be taken again. */
    method TryLock(attempt: nat) returns (result: Option<LockResult>)
      requires lock != Some(me) && attempt < LOCK_ATTEMPTS
      modifies this
      ensures Finish(me, script, Locking(attempt), old(Model()))
           == Finish(me, script, if result.Some? then Place(result.value) else AfterTurn(attempt), Model())
      ensures if result == Some(Locked) then lock == Some(me) else lock != Some(me)
      ensures result.Some? && result.value.Holds? ==> file == Valid(result.value.key)
      ensures old(file).Valid? ==> file == old(file)
      ensures Attempts(calls) == old(Attempts(calls)) + 1
    {
      var attempted := OpenLock(Locking(attempt));
      if attempted.Some? {
        return attempted;
      }
      var concurrent := ReadKeyPair(Blocked(attempt));
      return if concurrent.Some? then Some(Holds(concurrent.value)) else None;
    }

    /** What is tried after the loop. */
    method TryLastLock() returns (result: LockResult)
      requires lock != Some(me)
      modifies this
      ensures Finish(me, script, LastRead, old(Model())) == Finish(me, script, Place(result), Model())
      ensures if result.Locked? then lock == Some(me) else lock != Some(me)
      ensures result.Holds? ==> file == Valid(result.key)
      ensures old(file).Valid? ==> file == old(file)
      ensures Attempts(calls) <= old(Attempts(calls)) + 1
    {
      var winner := ReadKeyPair(LastRead);
      if winner.Some? {
        return Holds(winner.value);
      }
      var attempted := OpenLock(LastOpen);
      if attempted.Some? {
        return attempted.value;
      }
      var lateWinner := ReadKeyPair(LateRead);
      return if lateWinner.Some? then Holds(lateWinner.value) else Refused;
    }

    /** Takes the lock, or finds the key another process has minted meanwhile. */
    method AcquireKeyLock() returns (result: LockResult)
      requires lock != Some(me)
      modifies this
      ensures Finish(me, script, Locking(0), old(Model())) == Finish(me, script, Place(result), Model())
      ensures result.Locked? <==> lock == Some(me)
      ensures result.Holds? ==> file == Valid(result.key)
      ensures old(file).Valid? ==> file == old(file)
      ensures Attempts(calls) <= old(Attempts(calls)) + 51
    {
      ghost var all := Finish(me, script, Locking(0), Model());
      for attempt := 0 to LOCK_ATTEMPTS
        invariant lock != Some(me)
        invariant all == Finish(me, script, if attempt == 0 then Locking(0) else AfterTurn(attempt - 1), Model())
        invariant old(file).Valid? ==> file == old(file)
        invariant Attempts(calls) == old(Attempts(calls)) + attempt
      {
        var attempted := TryLock(attempt);
        if attempted.Some? {
          return attempted.value;
        }
      }
      result := TryLastLock();
    }

    /** One rename: whether it worked, or None if the target was busy and it is to be tried again. */
    method TryRename(key: Key, attempt: nat) returns (result: Option<bool>)
      requires lock == Some(me) && attempt < RENAME_ATTEMPTS
      modifies this
      ensures Finish(me, script, Replacing(key, attempt), old(Model()))
           == Finish(me, script, if result.Some? then Renamed(key, result.value) else AfterBusy(key, attempt + 1), Model())
      ensures result.None? ==> attempt < RENAME_ATTEMPTS - 1
      ensures lock == Some(me)
      ensures file == if result == Some(true) then Valid(key) else old(file)
    {
      var env := Interfere(Replacing(key, attempt));
      if env.io.Works? {
        file := Valid(key);
        return Some(true);
      }
      return if env.io.Breaks? || attempt == RENAME_ATTEMPTS - 1 then Some(false) else None;
    }

    /** Renames the temp file over the key file, retrying on a busy target. */
    method RenameKeyFile(key: Key) returns (renamed: bool)
      requires lock == Some(me)
      modifies this
      ensures Finish(me, script, Replacing(key, 0), old(Model())) == Finish(me, script, Renamed(key, renamed), Model())
      ensures lock == Some(me)
      ensures file == if renamed then Valid(key) else old(file)
    {
      ghost var all := Finish(me, script, Replacing(key, 0), Model());
      for attempt := 0 to RENAME_ATTEMPTS
        invariant lock == Some(me) && file == old(file)
        invariant all == Finish(me, script, AfterBusy(key, attempt), Model())
      {
        var attempted := TryRename(key, attempt);
        if attempted.Some? {
          return attempted.value;
        }
      }
      return false;
    }

    method PersistKeyPair(key: Key) returns (persisted: bool)
      requires lock == Some(me)
      modifies this
      ensures Finish(me, script, Writing(key), old(Model()))
           == Finish(me, script, Renamed(key, persisted), Model())
      ensures lock == Some(me)
      ensures file == if persisted then Valid(key) else old(file)
    {
      var env := Interfere(Writing(key));
      if !env.io.Works? {
        return false;
      }
      persisted := RenameKeyFile(key);
    }

    /** Errors are swallowed, so the lock file may survive its owner. */
    method ReleaseKeyLock(ghost outcome: Outcome) returns (released: bool)
      requires lock == Some(me)
      modifies this
      ensures Model() == Stepped(me, script, old(Model()), Releasing(outcome))
      ensures file == old(file)
      ensures lock == if released then None else Some(me)
      ensures released <==> script(old(turns)).env.io.Works?
    {
      var env := Interfere(Releasing(outcome));
      released := env.io.Works?;
      if released {
        lock := None;
      }
    }

    /** What is done under the lock, and its release. The pair that is minted is the one that the answer to the
        re-read carries. */
    method MintUnderLock() returns (outcome: Outcome)
      requires lock == Some(me)
      modifies this
      ensures Ended(outcome, Model()) == Finish(me, script, Holding, old(Model()))
    {
      var minted := script(turns).env.minted;
      var current := ReadKeyPair(Holding);
      if current.Some? {
        outcome := Returns(current.value);
      } else {
        var persisted := PersistKeyPair(minted);
        outcome := if persisted then Returns(minted) else Throws;
      }
      var _ := ReleaseKeyLock(outcome);
    }

    method Run() returns (outcome: Outcome)
      requires lock != Some(me)
      modifies this
      ensures Ended(outcome, Model()) == Finish(me, script, Starting, old(Model()))
    {
      var existing := ReadKeyPair(Starting);
      if existing.Some? {
        return Returns(existing.value);
      }
      var locked := AcquireKeyLock();
      if locked.Holds? {
        return Returns(locked.key);
      }
      if locked.Refused? {
        return Throws;
      }
      outcome := MintUnderLock();
    }

    /** The call of the protocol, from its first read to its end, with all that `KeyFileCalls` proves of it. */
    method LoadOrCreate() returns (outcome: Outcome)
      requires lock != Some(me)
      modifies this
      ensures Ended(outcome, Model()) == Load(me, script, old(Directory(file, lock)), old(turns))
      ensures outcome.Throws? <==> (exists i :: 0 <= i < |calls| && Fails(calls[i])) || AllFruitless(calls)
      ensures outcome.Returns? ==> Obtained(calls, outcome.key) && file == Valid(outcome.key)
      ensures Rereads(calls) ==> AllPermitted(me, calls)
      ensures Rereads(calls) && old(file).Valid? ==> file == old(file)
      ensures Removes(calls) ==> lock != Some(me)
    {
      LoadThrowsIff(me, script, Directory(file, lock), turns);
      LoadLeaves(me, script, Directory(file, lock), turns);
      calls := [];
      outcome := Run();
    }
  }
}
