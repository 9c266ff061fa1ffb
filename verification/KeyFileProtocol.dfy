/** Several processes, one key file: the minting protocol of the mock server as a transition system.
    A step of a process is one file-system call together with the code up to the next one; processes
    interleave at will and may crash at any moment. */
module KeyFileProtocol {
  import opened Options

  type Key = nat

  /** What the key file is to readKeyPair. */
  datatype Content = Missing | Malformed | Valid(key: Key)

  datatype Outcome = Returns(key: Key) | Throws

  /** Where a process is in loadOrCreateMockServerKeyPair: the call it makes next. */
  datatype Proc =
    | Starting                               // the read before the lock
    | Locking(attempt: nat)                  // exclusive create of the lock file, in the loop
    | Blocked(attempt: nat)                  // the read after finding the lock taken
    | LastRead                               // the read after the loop
    | LastOpen                               // the attempt after the loop
    | LateRead                               // the read after that attempt
    | Holding                                // lock held: the re-read
    | Writing(key: Key)                      // the minted key goes to a temp file
    | Replacing(key: Key, attempt: nat)      // rename of the temp file over the key file
    | Releasing(outcome: Outcome)            // removal of the lock file
    | Finished(outcome: Outcome)
    | Crashed

  /** What the environment decides about one call. */
  datatype Io = Works | Busy | Breaks        // Busy: EACCES, EBUSY or EPERM
  datatype Env = Env(readable: bool, io: Io, minted: Key)

  /** `lock` names the process that created the lock file; the code sees only that it exists. */
  datatype World = World(file: Content, lock: Option<nat>, procs: seq<Proc>)

  datatype Event = Act(who: nat, env: Env) | Crash(who: nat)

  const LOCK_ATTEMPTS := 50
  const RENAME_ATTEMPTS := 5

  predicate Live(p: Proc) {
    !p.Finished? && !p.Crashed?
  }

  predicate Critical(p: Proc) {
    p.Holding? || p.Writing? || p.Replacing? || p.Releasing?
  }

  function Read(file: Content, env: Env): Option<Key> {
    if file.Valid? && env.readable then Some(file.key) else None
  }

  function Open(lock: Option<nat>, env: Env, locked: Proc, taken: Proc): Proc {
    if !env.io.Works? then Finished(Throws) else if lock.None? then locked else taken
  }

  /** The next place of a process, given what its call finds. */
  function Next(p: Proc, file: Content, lock: Option<nat>, env: Env): Proc {
    match p
    case Starting =>
      if Read(file, env).Some? then Finished(Returns(Read(file, env).value)) else Locking(0)
    case Locking(attempt) => Open(lock, env, Holding, Blocked(attempt))
    case Blocked(attempt) =>
      if Read(file, env).Some? then Finished(Returns(Read(file, env).value))
      else if attempt + 1 < LOCK_ATTEMPTS then Locking(attempt + 1) else LastRead
    case LastRead =>
      if Read(file, env).Some? then Finished(Returns(Read(file, env).value)) else LastOpen
    case LastOpen => Open(lock, env, Holding, LateRead)
    case LateRead =>
      if Read(file, env).Some? then Finished(Returns(Read(file, env).value)) else Finished(Throws)
    case Holding =>
      if Read(file, env).Some? then Releasing(Returns(Read(file, env).value)) else Writing(env.minted)
    case Writing(key) => if env.io.Works? then Replacing(key, 0) else Releasing(Throws)
    case Replacing(key, attempt) =>
      if env.io.Works? then Releasing(Returns(key))
      else if env.io.Breaks? || attempt + 1 >= RENAME_ATTEMPTS then Releasing(Throws)
      else Replacing(key, attempt + 1)
    case Releasing(outcome) => Finished(outcome)
    case _ => p
  }

  function NextFile(p: Proc, file: Content, env: Env): Content {
    if p.Replacing? && env.io.Works? then Valid(p.key) else file
  }

  function NextLock(p: Proc, lock: Option<nat>, who: nat, env: Env): Option<nat> {
    if (p.Locking? || p.LastOpen?) && lock.None? && env.io.Works? then Some(who)
    else if p.Releasing? && env.io.Works? then None
    else lock
  }

  function Apply(w: World, e: Event): (t: World)
    ensures |t.procs| == |w.procs|
  {
    if e.who >= |w.procs| || !Live(w.procs[e.who]) then w
    else match e
      case Crash(who) => w.(procs := w.procs[who := Crashed])
      case Act(who, env) =>
        var p := w.procs[who];
        World(NextFile(p, w.file, env), NextLock(p, w.lock, who, env),
              w.procs[who := Next(p, w.file, w.lock, env)])
  }

  function Run(w: World, es: seq<Event>): (t: World)
    ensures |t.procs| == |w.procs|
    decreases |es|
  {
    if es == [] then w else Run(Apply(w, es[0]), es[1..])
  }

  /** Any number of processes about to start, whatever the file holds. */
  predicate Initial(w: World) {
    w.lock.None? && forall i :: 0 <= i < |w.procs| ==> w.procs[i].Starting?
  }

  // ----- mutual exclusion, in every run

  ghost predicate Locked(w: World) {
    forall i :: 0 <= i < |w.procs| && Critical(w.procs[i]) ==> w.lock == Some(i)
  }

  lemma LockedStep(w: World, e: Event)
    requires Locked(w)
    ensures Locked(Apply(w, e))
  {}

  lemma {:induction false} LockedRun(w: World, es: seq<Event>)
    requires Locked(w)
    ensures Locked(Run(w, es))
    decreases |es|
  {
    if es != [] {
      LockedStep(w, es[0]);
      LockedRun(Apply(w, es[0]), es[1..]);
    }
  }

  /** Whatever crashes and faults there are, no two processes are between taking and releasing the
      lock at the same time. */
  lemma MutualExclusion(w: World, es: seq<Event>, i: nat, j: nat)
    requires Initial(w)
    requires var t := Run(w, es); i < |t.procs| && j < |t.procs| && Critical(t.procs[i]) && Critical(t.procs[j])
    ensures i == j
  {
    LockedRun(w, es);
  }

  // ----- agreement

  /** A re-read under the lock does not fail on a valid file. Every other read may. */
  predicate Trusted(w: World, e: Event) {
    e.Act? && e.who < |w.procs| && w.procs[e.who].Holding? && w.file.Valid? ==> e.env.readable
  }

  predicate TrustedRun(w: World, es: seq<Event>)
    decreases |es|
  {
    es == [] || (Trusted(w, es[0]) && TrustedRun(Apply(w, es[0]), es[1..]))
  }

  predicate AgreesWith(p: Proc, file: Content) {
    match p
    case Writing(_) => !file.Valid?
    case Replacing(_, _) => !file.Valid?
    case Releasing(outcome) => outcome.Returns? ==> file == Valid(outcome.key)
    case Finished(outcome) => outcome.Returns? ==> file == Valid(outcome.key)
    case _ => true
  }

  ghost predicate Inv(w: World) {
    Locked(w) && forall i :: 0 <= i < |w.procs| ==> AgreesWith(w.procs[i], w.file)
  }

  lemma InvStep(w: World, e: Event)
    requires Inv(w) && Trusted(w, e)
    ensures Inv(Apply(w, e))
    ensures w.file.Valid? ==> Apply(w, e).file == w.file
  {
    LockedStep(w, e);
  }

  /** A valid key file never changes again. */
  lemma {:induction false} ValidFileNeverChanges(w: World, es: seq<Event>)
    requires Inv(w) && TrustedRun(w, es)
    ensures Inv(Run(w, es))
    ensures w.file.Valid? ==> Run(w, es).file == w.file
    decreases |es|
  {
    if es != [] {
      InvStep(w, es[0]);
      ValidFileNeverChanges(Apply(w, es[0]), es[1..]);
    }
  }

  /** All key pairs ever returned are the one the file holds, hence the same. */
  lemma Agreement(w: World, es: seq<Event>, i: nat, j: nat)
    requires Initial(w) && TrustedRun(w, es)
    requires var t := Run(w, es); i < |t.procs| && j < |t.procs|
                                  && t.procs[i].Finished? && t.procs[i].outcome.Returns?
                                  && t.procs[j].Finished? && t.procs[j].outcome.Returns?
    ensures var t := Run(w, es);
            t.procs[i].outcome == t.procs[j].outcome && t.file == Valid(t.procs[i].outcome.key)
  {
    ValidFileNeverChanges(w, es);
  }

  /** The file is what it is now at the end of every continuation. */
  ghost predicate FileSurvives(w: World) {
    forall es :: TrustedRun(w, es) ==> Run(w, es).file == w.file
  }

  ghost predicate Alone(es: seq<Event>, who: nat) {
    forall i :: 0 <= i < |es| ==> es[i].Act? && es[i].who == who
  }

  /** The premise is exact: a valid file survives every continuation if and only if the re-read under
      the lock does not fail. When it fails, its process alone goes on to replace the key. */
  lemma ValidFileSurvivesIff(w: World, who: nat, env: Env)
    requires Inv(w) && w.file.Valid? && who < |w.procs| && w.procs[who].Holding? && env.minted != w.file.key
    ensures Apply(w, Act(who, env)).file == w.file
    ensures env.readable <==> FileSurvives(Apply(w, Act(who, env)))
    ensures !env.readable ==>
              exists es :: Alone(es, who) && TrustedRun(Apply(w, Act(who, env)), es)
                           && Run(Apply(w, Act(who, env)), es).file == Valid(env.minted)
  {
    var t := Apply(w, Act(who, env));
    if env.readable {
      InvStep(w, Act(who, env));
      forall es | TrustedRun(t, es) ensures Run(t, es).file == t.file {
        ValidFileNeverChanges(t, es);
      }
    } else {
      var step := Act(who, Env(true, Works, 0));
      var t' := Apply(t, step);
      var es := [step, step];
      assert es[1..] == [step] && [step][1..] == [];
      assert Run(t, es) == Run(t', [step]) == Run(Apply(t', step), []);
      assert TrustedRun(t', [step]);
      assert Alone(es, who) && TrustedRun(t, es) && Run(t, es).file == Valid(env.minted);
    }
  }

  lemma RunCons(w: World, e: Event, rest: seq<Event>)
    ensures Run(w, [e] + rest) == Run(Apply(w, e), rest)
  {
    assert ([e] + rest)[1..] == rest;
  }

  lemma RunThrice(w: World, e: Event, rest: seq<Event>)
    ensures Run(w, [e, e, e] + rest) == Run(Apply(Apply(Apply(w, e), e), e), rest)
  {
    assert [e, e, e] + rest == [e] + ([e] + ([e] + rest));
    RunCons(w, e, [e] + ([e] + rest));
    RunCons(Apply(w, e), e, [e] + rest);
    RunCons(Apply(Apply(w, e), e), e, rest);
  }

  /** A process that fails to read the file, before the lock and under it, and goes on to mint. */
  lemma BlindToWriting(w: World, who: nat, e: Event)
    requires who < |w.procs| && w.procs[who] == Starting && w.lock == None
    requires e.Act? && e.who == who && !e.env.readable && e.env.io == Works
    ensures Apply(Apply(Apply(w, e), e), e) == World(w.file, Some(who), w.procs[who := Writing(e.env.minted)])
  {
    var u, v := Apply(w, e), Apply(Apply(w, e), e);
    assert u == World(w.file, None, w.procs[who := Locking(0)]);
    assert v == World(w.file, Some(who), w.procs[who := Holding]);
  }

  lemma WritingToFinished(w: World, who: nat, key: Key, e: Event)
    requires who < |w.procs| && w.procs[who] == Writing(key) && w.lock == Some(who)
    requires e.Act? && e.who == who && e.env.io == Works
    ensures Apply(Apply(Apply(w, e), e), e) == World(Valid(key), None, w.procs[who := Finished(Returns(key))])
  {
    var u, v := Apply(w, e), Apply(Apply(w, e), e);
    assert u == World(w.file, Some(who), w.procs[who := Replacing(key, 0)]);
    assert v == World(Valid(key), Some(who), w.procs[who := Releasing(Returns(key))]);
  }

  /** Such a run: one process returns the key of the file; another fails to read it, before the lock and
      under it, mints a key and returns that. */
  lemma FailedRereadSplitsKeys()
    ensures var start, e := World(Valid(1), None, [Starting, Starting]), Act(1, Env(false, Works, 2));
            && Initial(start)
            && Run(start, [Act(0, Env(true, Works, 0))] + ([e, e, e] + ([e, e, e] + [])))
               == World(Valid(2), None, [Finished(Returns(1)), Finished(Returns(2))])
  {
    var first, e := Finished(Returns(1)), Act(1, Env(false, Works, 2));
    var start, after := World(Valid(1), None, [Starting, Starting]), World(Valid(1), None, [first, Starting]);
    RunCons(start, Act(0, Env(true, Works, 0)), [e, e, e] + ([e, e, e] + []));
    assert after.procs[1 := Writing(2)] == [first, Writing(2)];
    assert [first, Writing(2)][1 := Finished(Returns(2))] == [first, Finished(Returns(2))];
    var writing := World(Valid(1), Some(1), [first, Writing(2)]);
    RunThrice(after, e, [e, e, e] + []);
    BlindToWriting(after, 1, e);
    RunThrice(writing, e, []);
    WritingToFinished(writing, 1, 2, e);
    assert Apply(start, Act(0, Env(true, Works, 0))) == after;
  }

  // ----- every call is bounded

  /** A bound on the steps a process still takes. */
  function Rank(p: Proc): nat {
    match p
    case Starting => 111
    case Locking(attempt) => if attempt < LOCK_ATTEMPTS then 110 - 2 * attempt else 0
    case Blocked(attempt) => if attempt < LOCK_ATTEMPTS then 109 - 2 * attempt else 0
    case LastRead => 10
    case LastOpen => 9
    case LateRead => 1
    case Holding => 8
    case Writing(_) => 7
    case Replacing(_, attempt) => if attempt < RENAME_ATTEMPTS then 6 - attempt else 0
    case Releasing(_) => 1
    case _ => 0
  }

  /** How many times a process can still try to create the lock file. */
  function OpensLeft(p: Proc): nat {
    match p
    case Starting => LOCK_ATTEMPTS + 1
    case Locking(attempt) => if attempt < LOCK_ATTEMPTS then LOCK_ATTEMPTS + 1 - attempt else 0
    case Blocked(attempt) => if attempt < LOCK_ATTEMPTS then LOCK_ATTEMPTS - attempt else 0
    case LastRead => 1
    case LastOpen => 1
    case _ => 0
  }

  predicate InBounds(p: Proc) {
    && (p.Locking? || p.Blocked? ==> p.attempt < LOCK_ATTEMPTS)
    && (p.Replacing? ==> p.attempt < RENAME_ATTEMPTS)
  }

  function Opens(w: World, es: seq<Event>, who: nat): nat
    decreases |es|
  {
    if es == [] then 0 else
      var rest := Opens(Apply(w, es[0]), es[1..], who);
      if es[0].Act? && es[0].who == who && who < |w.procs| && (w.procs[who].Locking? || w.procs[who].LastOpen?)
      then 1 + rest else rest
  }

  function Acts(w: World, es: seq<Event>, who: nat): nat
    decreases |es|
  {
    if es == [] then 0 else
      var rest := Acts(Apply(w, es[0]), es[1..], who);
      if es[0].Act? && es[0].who == who && who < |w.procs| && Live(w.procs[who]) then 1 + rest else rest
  }

  lemma CallMakesProgress(p: Proc, file: Content, lock: Option<nat>, env: Env)
    requires Live(p) && InBounds(p)
    ensures var q := Next(p, file, lock, env);
            && !q.Crashed? && InBounds(q) && Rank(q) < Rank(p)
            && OpensLeft(q) + (if p.Locking? || p.LastOpen? then 1 else 0) <= OpensLeft(p)
  {}

  lemma {:induction false} CallIsBounded(w: World, es: seq<Event>, who: nat)
    requires who < |w.procs| && InBounds(w.procs[who])
    ensures Opens(w, es, who) <= OpensLeft(w.procs[who])
    ensures InBounds(Run(w, es).procs[who])
    ensures Acts(w, es, who) + Rank(Run(w, es).procs[who]) <= Rank(w.procs[who])
    decreases |es|
  {
    if es != [] {
      if es[0].Act? && es[0].who == who && Live(w.procs[who]) {
        CallMakesProgress(w.procs[who], w.file, w.lock, es[0].env);
      }
      CallIsBounded(Apply(w, es[0]), es[1..], who);
    }
  }

  /** In every run, faulty or not, a call tries to create the lock file at most 51 times and ends
      after at most 111 steps of its own. */
  lemma EveryCallIsBounded(w: World, es: seq<Event>, who: nat)
    requires Initial(w) && who < |w.procs|
    ensures Opens(w, es, who) <= 51
    ensures Acts(w, es, who) <= 111
    ensures Acts(w, es, who) == 111 ==> !Live(Run(w, es).procs[who])
  {
    CallIsBounded(w, es, who);
  }

  // ----- the price of a crash under the lock

  /** A lock file whose creator is gone, beside a file that is not valid. */
  predicate Abandoned(w: World) {
    && !w.file.Valid?
    && w.lock.Some? && w.lock.value < |w.procs| && !Live(w.procs[w.lock.value])
  }

  /** Until somebody removes the abandoned lock file, no key is minted and every call throws. */
  lemma {:induction false} AbandonedLockBlocksForever(w: World, es: seq<Event>)
    requires Inv(w) && Abandoned(w)
    ensures var t := Run(w, es);
            && Abandoned(t) && t.file == w.file
            && forall i :: 0 <= i < |t.procs| && t.procs[i].Finished? ==> t.procs[i].outcome.Throws?
    decreases |es|
  {
    if es != [] {
      InvStep(w, es[0]);
      AbandonedLockBlocksForever(Apply(w, es[0]), es[1..]);
    }
  }

  // ----- what one process may rely on

  /** What the others can do between two calls of process `me`: a valid file stays, and while `me`
      holds the lock nothing changes at all. */
  predicate Rely(me: nat, file: Content, lock: Option<nat>, file': Content, lock': Option<nat>) {
    && (file.Valid? ==> file' == file)
    && (lock == Some(me) ==> lock' == lock && file' == file)
    && (lock' == Some(me) ==> lock == Some(me))
  }

  lemma {:induction false} OthersKeepRely(w: World, es: seq<Event>, me: nat)
    requires Inv(w) && TrustedRun(w, es)
    requires forall i :: 0 <= i < |es| ==> es[i].who != me
    ensures Rely(me, w.file, w.lock, Run(w, es).file, Run(w, es).lock)
    decreases |es|
  {
    if es != [] {
      InvStep(w, es[0]);
      OthersKeepRely(Apply(w, es[0]), es[1..], me);
    }
  }
}
