/** One call of the loader from its first read to its end, as a function of what the other processes do and
    of how its file-system calls are answered: when it throws, what it returns, and what it leaves. */
module KeyFileCalls {
  import opened Options
  import opened KeyFileProtocol

  datatype Directory = Directory(file: Content, lock: Option<nat>)

  /** What the others make of the directory before a call of the process, and how that call is answered. */
  datatype Turn = Turn(others: Option<Directory>, env: Env)
  type Script = nat -> Turn

  /** A call that has been made: where the process was, what the call found, and its answer. */
  datatype Call = Call(place: Proc, file: Content, lock: Option<nat>, env: Env)

  datatype Progress = Progress(directory: Directory, turns: nat, calls: seq<Call>)

  /** The others change what `Rely` lets them. */
  function Found(me: nat, d: Directory, turn: Turn): Directory {
    if turn.others.Some? && Rely(me, d.file, d.lock, turn.others.value.file, turn.others.value.lock)
    then turn.others.value else d
  }

  function CallAt(me: nat, script: Script, s: Progress, place: Proc): Call {
    var found := Found(me, s.directory, script(s.turns));
    Call(place, found.file, found.lock, script(s.turns).env)
  }

  function PlaceAfter(c: Call): Proc {
    Next(c.place, c.file, c.lock, c.env)
  }

  function DirectoryAfter(me: nat, c: Call): Directory {
    Directory(NextFile(c.place, c.file, c.env), NextLock(c.place, c.lock, me, c.env))
  }

  function Stepped(me: nat, script: Script, s: Progress, place: Proc): Progress {
    var c := CallAt(me, script, s, place);
    Progress(DirectoryAfter(me, c), s.turns + 1, s.calls + [c])
  }

  datatype Ended = Ended(outcome: Outcome, progress: Progress)

  /** The steps of the protocol, up to the end of the call. */
  function Finish(me: nat, script: Script, p: Proc, s: Progress): Ended
    requires InBounds(p) && !p.Crashed?
    decreases Rank(p)
  {
    if p.Finished? then Ended(p.outcome, s)
    else
      var c := CallAt(me, script, s, p);
      CallMakesProgress(p, c.file, c.lock, c.env);
      Finish(me, script, PlaceAfter(c), Stepped(me, script, s, p))
  }

  function Load(me: nat, script: Script, d: Directory, turns: nat): Ended {
    Finish(me, script, Starting, Progress(d, turns, []))
  }

  // ----- what the calls are

  predicate IsRead(c: Call) {
    c.place.Starting? || c.place.Blocked? || c.place.LastRead? || c.place.LateRead? || c.place.Holding?
  }

  predicate IsOpen(c: Call) {
    c.place.Locking? || c.place.LastOpen?
  }

  /** The read finds this key. */
  predicate Gives(c: Call, key: Key) {
    IsRead(c) && c.env.readable && c.file == Valid(key)
  }

  /** A read that finds no key, or an attempt at a lock file that is there already. */
  predicate Fruitless(c: Call) {
    if IsOpen(c) then c.env.io.Works? && c.lock.Some? else IsRead(c) && !(c.env.readable && c.file.Valid?)
  }

  /** The calls whose errors are not swallowed: to open the lock file, to write the temp file, and to rename
      it, where a busy target is retried four times. */
  predicate Fails(c: Call) {
    || (IsOpen(c) && !c.env.io.Works?)
    || (c.place.Writing? && !c.env.io.Works?)
    || (c.place.Replacing? && (c.env.io.Breaks? || (c.env.io.Busy? && c.place.attempt == 4)))
  }

  // ----- when the call throws

  ghost predicate AllFruitless(calls: seq<Call>) {
    forall i :: 0 <= i < |calls| ==> Fruitless(calls[i])
  }

  ghost predicate NoneFails(calls: seq<Call>) {
    forall i :: 0 <= i < |calls| ==> !Fails(calls[i])
  }

  /** A read has given the key, or it was minted after the re-read and its rename has worked. */
  ghost predicate Obtained(calls: seq<Call>, key: Key) {
    || (exists i :: 0 <= i < |calls| && Gives(calls[i], key))
    || (Minted(calls, key) && exists i :: 0 <= i < |calls| && Puts(calls[i], key))
  }

  predicate Puts(c: Call, key: Key) {
    c.place.Replacing? && c.place.key == key && c.env.io.Works?
  }

  predicate Mints(c: Call, key: Key) {
    c.place.Holding? && c.env.minted == key && Fruitless(c)
  }

  ghost predicate Minted(calls: seq<Call>, key: Key) {
    exists i :: 0 <= i < |calls| && Mints(calls[i], key)
  }

  ghost predicate Explains(calls: seq<Call>, outcome: Outcome) {
    match outcome
    case Returns(key) => NoneFails(calls) && !AllFruitless(calls) && Obtained(calls, key)
    case Throws => !NoneFails(calls) || AllFruitless(calls)
  }

  /** What the calls so far say of where the process is. */
  ghost predicate Explained(p: Proc, calls: seq<Call>) {
    match p
    case Finished(outcome) => Explains(calls, outcome)
    case Releasing(outcome) => Explains(calls, outcome) && !AllFruitless(calls)
    case Holding => NoneFails(calls) && !AllFruitless(calls)
    case Writing(key) => NoneFails(calls) && !AllFruitless(calls) && Minted(calls, key)
    case Replacing(key, _) => NoneFails(calls) && !AllFruitless(calls) && Minted(calls, key)
    case _ => AllFruitless(calls)
  }

  lemma OneMore(calls: seq<Call>, c: Call)
    ensures NoneFails(calls + [c]) <==> NoneFails(calls) && !Fails(c)
    ensures AllFruitless(calls + [c]) <==> AllFruitless(calls) && Fruitless(c)
    ensures forall key :: Minted(calls, key) || Mints(c, key) ==> Minted(calls + [c], key)
    ensures forall key :: Obtained(calls, key) || Gives(c, key) || (Minted(calls, key) && Puts(c, key)) ==>
              Obtained(calls + [c], key)
  {
    var all := calls + [c];
    assert all[|calls|] == c && forall i :: 0 <= i < |calls| ==> all[i] == calls[i];
    forall key | Minted(calls, key) ensures Minted(all, key) {
      var i :| 0 <= i < |calls| && Mints(calls[i], key);
      assert Mints(all[i], key);
    }
    forall key | Obtained(calls, key) ensures Obtained(all, key) {
      if i :| 0 <= i < |calls| && Gives(calls[i], key) {
        assert Gives(all[i], key);
      } else {
        var i :| 0 <= i < |calls| && Puts(calls[i], key);
        assert Puts(all[i], key);
      }
    }
  }

  lemma ExplainedStep(calls: seq<Call>, c: Call)
    requires Explained(c.place, calls) && Live(c.place) && InBounds(c.place)
    ensures Explained(PlaceAfter(c), calls + [c])
  {
    OneMore(calls, c);
    AllFruitlessFail(calls);
  }

  lemma AllFruitlessFail(calls: seq<Call>)
    ensures AllFruitless(calls) ==> NoneFails(calls)
  {}

  lemma {:induction false} FinishIsExplained(me: nat, script: Script, p: Proc, s: Progress)
    requires InBounds(p) && !p.Crashed? && Explained(p, s.calls)
    ensures var e := Finish(me, script, p, s); Explains(e.progress.calls, e.outcome)
    decreases Rank(p)
  {
    if !p.Finished? {
      var c := CallAt(me, script, s, p);
      CallMakesProgress(p, c.file, c.lock, c.env);
      ExplainedStep(s.calls, c);
      FinishIsExplained(me, script, PlaceAfter(c), Stepped(me, script, s, p));
    }
  }

  /** Whatever the others do, the call throws if and only if one of its calls failed, or every attempt at the
      lock found it taken and no read gave a key; else it returns a key it has read or put in place. */
  lemma LoadThrowsIff(me: nat, script: Script, d: Directory, turns: nat)
    ensures var e := Load(me, script, d, turns);
            && (e.outcome.Throws? <==>
                  || (exists i :: 0 <= i < |e.progress.calls| && Fails(e.progress.calls[i]))
                  || AllFruitless(e.progress.calls))
            && (e.outcome.Returns? ==> Obtained(e.progress.calls, e.outcome.key))
  {
    FinishIsExplained(me, script, Starting, Progress(d, turns, []));
  }

  // ----- how often it tries

  function Attempts(calls: seq<Call>): nat {
    if calls == [] then 0
    else Attempts(calls[..|calls| - 1]) + if IsOpen(calls[|calls| - 1]) then 1 else 0
  }

  ghost predicate Counted(p: Proc, calls: seq<Call>) {
    match p
    case Starting => Attempts(calls) == 0
    case Locking(attempt) => Attempts(calls) == attempt
    case Blocked(attempt) => Attempts(calls) == attempt + 1
    case LastRead => Attempts(calls) == 50
    case LastOpen => Attempts(calls) == 50
    case LateRead => Attempts(calls) == 51
    case Finished(outcome) => outcome.Throws? && AllFruitless(calls) ==> Attempts(calls) == 51
    case _ => true
  }

  lemma CountedStep(calls: seq<Call>, c: Call)
    requires Explained(c.place, calls) && Counted(c.place, calls) && Live(c.place) && InBounds(c.place)
    ensures Counted(PlaceAfter(c), calls + [c])
  {
    assert (calls + [c])[..|calls|] == calls;
    OneMore(calls, c);
  }

  lemma {:induction false} FinishIsCounted(me: nat, script: Script, p: Proc, s: Progress)
    requires InBounds(p) && !p.Crashed? && Explained(p, s.calls) && Counted(p, s.calls)
    ensures var e := Finish(me, script, p, s); Counted(Finished(e.outcome), e.progress.calls)
    decreases Rank(p)
  {
    if !p.Finished? {
      var c := CallAt(me, script, s, p);
      CallMakesProgress(p, c.file, c.lock, c.env);
      ExplainedStep(s.calls, c);
      CountedStep(s.calls, c);
      FinishIsCounted(me, script, PlaceAfter(c), Stepped(me, script, s, p));
    }
  }

  /** Without a failing call it gives up only after 51 attempts at the lock. */
  lemma GivesUpAfterAttempts(me: nat, script: Script, d: Directory, turns: nat)
    requires var e := Load(me, script, d, turns); e.outcome.Throws? && NoneFails(e.progress.calls)
    ensures Attempts(Load(me, script, d, turns).progress.calls) == 51
  {
    LoadThrowsIff(me, script, d, turns);
    FinishIsCounted(me, script, Starting, Progress(d, turns, []));
  }

  // ----- the two plain cases

  /** Nobody interferes and nothing fails. */
  ghost predicate Calm(script: Script, turns: nat, count: nat) {
    forall k :: turns <= k < turns + count ==> script(k).others.None? && script(k).env.io.Works?
  }

  /** Then, without a valid file and with the lock free, the call returns the key it mints, the file holds that
      key, and the lock is free again. */
  lemma CalmLoadMints(me: nat, script: Script, d: Directory, turns: nat)
    requires !d.file.Valid? && d.lock.None? && Calm(script, turns, 6)
    ensures var e, minted := Load(me, script, d, turns), script(turns + 2).env.minted;
            && e.outcome == Returns(minted) && e.progress.directory == Directory(Valid(minted), None)
            && |e.progress.calls| == 6
  {
    var minted := script(turns + 2).env.minted;
    var s0 := Progress(d, turns, []);
    var s2 := Stepped(me, script, Stepped(me, script, s0, Starting), Locking(0));
    assert Load(me, script, d, turns) == Finish(me, script, Holding, s2);
    var s4 := Stepped(me, script, Stepped(me, script, s2, Holding), Writing(minted));
    assert Finish(me, script, Holding, s2) == Finish(me, script, Replacing(minted, 0), s4);
    var s6 := Stepped(me, script, Stepped(me, script, s4, Replacing(minted, 0)), Releasing(Returns(minted)));
    assert Finish(me, script, Replacing(minted, 0), s4) == Finish(me, script, Finished(Returns(minted)), s6);
  }

  /** A valid file that is read gives its key at once, without an attempt at the lock. */
  lemma ValidFileIsReturned(me: nat, script: Script, d: Directory, turns: nat)
    requires d.file.Valid? && script(turns).env.readable
    ensures var e := Load(me, script, d, turns);
            && e.outcome == Returns(d.file.key) && e.progress.directory.file == d.file
            && |e.progress.calls| == 1 && Attempts(e.progress.calls) == 0
  {
    var s := Stepped(me, script, Progress(d, turns, []), Starting);
    assert Load(me, script, d, turns) == Finish(me, script, Finished(Returns(d.file.key)), s);
    assert s.calls[..0] == [];
  }

  // ----- what it leaves

  /** It takes a free lock, gives up its own, or replaces a key file that is not valid under its own. */
  predicate Permitted(me: nat, c: Call) {
    var after := DirectoryAfter(me, c);
    if after.file == c.file
    then after.lock == c.lock || (c.lock.None? && after.lock == Some(me)) || (c.lock == Some(me) && after.lock.None?)
    else !c.file.Valid? && after.file.Valid? && c.lock == after.lock == Some(me)
  }

  /** So every other process can rely on it. */
  lemma PermittedKeepsRely(me: nat, other: nat, c: Call)
    requires Permitted(me, c) && other != me
    ensures var after := DirectoryAfter(me, c); Rely(other, c.file, c.lock, after.file, after.lock)
  {}

  /** The re-read under the lock does not fail on a valid file. */
  ghost predicate Rereads(calls: seq<Call>) {
    forall i :: 0 <= i < |calls| && calls[i].place.Holding? && calls[i].file.Valid? ==> calls[i].env.readable
  }

  ghost predicate AllPermitted(me: nat, calls: seq<Call>) {
    forall i :: 0 <= i < |calls| ==> Permitted(me, calls[i])
  }

  /** The lock file can be removed. */
  ghost predicate Removes(calls: seq<Call>) {
    forall i :: 0 <= i < |calls| && calls[i].place.Releasing? ==> calls[i].env.io.Works?
  }

  /** Where the process is, the directory is as it should be; `was` is the file at the start. */
  ghost predicate Sound(me: nat, was: Content, p: Proc, s: Progress) {
    && (Critical(p) ==> s.directory.lock == Some(me))
    && (!Critical(p) && Removes(s.calls) ==> s.directory.lock != Some(me))
    && (!Critical(p) && !p.Finished? ==> s.directory.lock != Some(me))
    && (p.Releasing? || p.Finished? ==> p.outcome.Returns? ==> s.directory.file == Valid(p.outcome.key))
    && (was.Valid? && Rereads(s.calls) ==> s.directory.file == was)
    && (Rereads(s.calls) ==> AllPermitted(me, s.calls) && (p.Writing? || p.Replacing? ==> !s.directory.file.Valid?))
  }

  lemma MoreCalls(me: nat, calls: seq<Call>, c: Call)
    ensures Rereads(calls + [c]) <==> Rereads(calls) && (c.place.Holding? && c.file.Valid? ==> c.env.readable)
    ensures Removes(calls + [c]) <==> Removes(calls) && (c.place.Releasing? ==> c.env.io.Works?)
    ensures AllPermitted(me, calls + [c]) <==> AllPermitted(me, calls) && Permitted(me, c)
  {
    var all := calls + [c];
    assert all[|calls|] == c && forall i :: 0 <= i < |calls| ==> all[i] == calls[i];
  }

  lemma SoundStep(me: nat, script: Script, was: Content, p: Proc, s: Progress)
    requires Sound(me, was, p, s) && Live(p) && InBounds(p)
    ensures Sound(me, was, PlaceAfter(CallAt(me, script, s, p)), Stepped(me, script, s, p))
  {
    MoreCalls(me, s.calls, CallAt(me, script, s, p));
  }

  lemma {:induction false} FinishIsSound(me: nat, script: Script, was: Content, p: Proc, s: Progress)
    requires InBounds(p) && !p.Crashed? && Sound(me, was, p, s)
    ensures var e := Finish(me, script, p, s); Sound(me, was, Finished(e.outcome), e.progress)
    decreases Rank(p)
  {
    if !p.Finished? {
      var c := CallAt(me, script, s, p);
      CallMakesProgress(p, c.file, c.lock, c.env);
      SoundStep(me, script, was, p, s);
      FinishIsSound(me, script, was, PlaceAfter(c), Stepped(me, script, s, p));
    }
  }

  /** A returned key is the one in the file. If the re-read under the lock does not fail on a valid file, a key
      the file held before is still there, and the others can rely on every change made. The lock is given up
      unless its removal failed. */
  lemma LoadLeaves(me: nat, script: Script, d: Directory, turns: nat)
    requires d.lock != Some(me)
    ensures var e := Load(me, script, d, turns);
            && (e.outcome.Returns? ==> e.progress.directory.file == Valid(e.outcome.key))
            && (Rereads(e.progress.calls) ==> AllPermitted(me, e.progress.calls))
            && (Rereads(e.progress.calls) && d.file.Valid? ==> e.progress.directory.file == d.file)
            && (Removes(e.progress.calls) ==> e.progress.directory.lock != Some(me))
  {
    FinishIsSound(me, script, d.file, Starting, Progress(d, turns, []));
  }
}
