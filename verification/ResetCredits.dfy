/** Redeeming reset credits idempotently, as the mock server does it. */
module ResetCredits {
  import opened Options

  datatype Account = Personal | Team

  datatype Usage = Usage(credits: nat, sessionUsed: nat, updatedAt: int, nextExpiresAt: int)

  /** What the opaque revision of an offer is made of, and the account it is for. */
  datatype Scope = Scope(account: Account, credits: nat, sessionUsed: nat, updatedAt: int, nextExpiresAt: int,
                         startedAt: int)

  /** The JSON text of a supplied scope: that of some scope the server could build, or anything else. */
  datatype ScopeKey = OfferKey(scope: Scope) | OtherKey(text: string)

  datatype Outcome = Reset | NoCredit
  datatype Operation = Operation(scope: ScopeKey, outcome: Outcome)

  datatype Refusal = InvalidKey | MissingScope | DifferentScope | AlreadyRedeemed | UnknownAccount
  datatype Response = Done(outcome: Outcome) | OfferChanged | Fails(refusal: Refusal)

  type Key = string

  const MAX_SAFE_INTEGER := 0x1F_FFFF_FFFF_FFFF
  const DAY := 24 * 60 * 60 * 1000

  datatype State = State(startedAt: int, active: Option<Account>, usage: map<Account, Usage>,
                         operations: map<Key, Operation>, owners: map<ScopeKey, Key>)

  function Offset(a: Account): int {
    if a.Personal? then 0 else 1
  }

  function InitialUsage(now: int, a: Account): Usage {
    Usage(1, 100, now + Offset(a), now + (5 + Offset(a)) * DAY)
  }

  function Fixture(now: int): State {
    State(now, Some(Personal), map[Personal := InitialUsage(now, Personal), Team := InitialUsage(now, Team)], map[], map[])
  }

  /** The scope on offer: none without an active account, credits, or a revision that is a safe integer. */
  function CurrentScope(s: State): Option<Scope> {
    if s.active.None? || s.active.value !in s.usage then None
    else
      var u := s.usage[s.active.value];
      if u.credits == 0 || u.updatedAt < 0 || u.updatedAt > MAX_SAFE_INTEGER then None
      else Some(Scope(s.active.value, u.credits, u.sessionUsed, u.updatedAt, u.nextExpiresAt, s.startedAt))
  }

  datatype Event =
    | Consume(key: Option<Key>, scope: Option<ScopeKey>)   // None: not a UUID; not an object
    | Select(account: Option<Account>)                     // an unknown account fails and changes nothing

  function Redeem(s: State, key: Key, scope: Scope): (State, Outcome) {
    var offer := OfferKey(scope);
    var available := scope.account in s.usage && s.usage[scope.account].credits > 0;
    var outcome := if available then Reset else NoCredit;
    var recorded := s.(owners := s.owners[offer := key], operations := s.operations[key := Operation(offer, outcome)]);
    if !available then (recorded, outcome)
    else
      var u := s.usage[scope.account];
      (recorded.(usage := s.usage[scope.account := u.(credits := 0, sessionUsed := 0, updatedAt := u.updatedAt + 1)]), outcome)
  }

  function ConsumeCredit(s: State, key: Option<Key>, scope: Option<ScopeKey>): (State, Response) {
    if key.None? then (s, Fails(InvalidKey))
    else if scope.None? then (s, Fails(MissingScope))
    else if key.value in s.operations then
      if s.operations[key.value].scope != scope.value then (s, Fails(DifferentScope))
      else (s, Done(s.operations[key.value].outcome))
    else
      var current := CurrentScope(s);
      if current.None? || OfferKey(current.value) != scope.value then (s, OfferChanged)
      else if scope.value in s.owners && s.owners[scope.value] != key.value then (s, Fails(AlreadyRedeemed))
      else
        var (t, outcome) := Redeem(s, key.value, current.value);
        (t, Done(outcome))
  }

  function Apply(s: State, e: Event): State {
    match e
    case Consume(key, scope) => ConsumeCredit(s, key, scope).0
    case Select(account) => s.(active := account)
  }

  function Run(s: State, es: seq<Event>): State
    decreases |es|
  {
    if es == [] then s else Run(Apply(s, es[0]), es[1..])
  }

  // ----- conservation

  ghost function ResetKeys(s: State, a: Account): set<Key> {
    set k | k in s.operations && s.operations[k].outcome.Reset? && s.operations[k].scope.OfferKey?
            && s.operations[k].scope.scope.account == a
  }

  /** Credits left and operations that took one add up. */
  ghost predicate Conserved(s: State) {
    forall a: Account :: a in s.usage && s.usage[a].credits + |ResetKeys(s, a)| == 1
  }

  /** Every recorded operation redeemed a credit and owns its offer; an owned offer is used up. */
  ghost predicate Owned(s: State) {
    && (forall k :: k in s.operations ==>
          && s.operations[k].outcome.Reset? && s.operations[k].scope in s.owners
          && s.owners[s.operations[k].scope] == k)
    && (forall o :: o in s.owners ==> o.OfferKey? && o.scope.account in s.usage && s.usage[o.scope.account].credits == 0)
  }

  ghost predicate Inv(s: State) {
    Conserved(s) && Owned(s)
  }

  lemma RedeemAddsKey(s: State, key: Key, scope: Scope)
    requires key !in s.operations && scope.account in s.usage && s.usage[scope.account].credits > 0
    ensures var t := Redeem(s, key, scope).0;
            forall a :: ResetKeys(t, a) == ResetKeys(s, a) + if a == scope.account then {key} else {}
  {
    var t := Redeem(s, key, scope).0;
    forall a ensures ResetKeys(t, a) == ResetKeys(s, a) + if a == scope.account then {key} else {} {
      forall k ensures k in ResetKeys(t, a) <==> k in ResetKeys(s, a) + if a == scope.account then {key} else {} {}
    }
  }

  lemma RedeemConserves(s: State, key: Key, scope: Scope)
    requires Conserved(s) && key !in s.operations && CurrentScope(s) == Some(scope)
    ensures Conserved(Redeem(s, key, scope).0)
  {
    RedeemAddsKey(s, key, scope);
    var t := Redeem(s, key, scope).0;
    forall a: Account ensures a in t.usage && t.usage[a].credits + |ResetKeys(t, a)| == 1 {
      assert a in s.usage && s.usage[a].credits + |ResetKeys(s, a)| == 1;
      if a == scope.account {
        assert ResetKeys(s, a) == {};
        assert ResetKeys(t, a) == {key};
      } else {
        assert ResetKeys(t, a) == ResetKeys(s, a);
      }
    }
  }

  lemma RedeemKeepsOwned(s: State, key: Key, scope: Scope)
    requires Owned(s) && key !in s.operations && CurrentScope(s) == Some(scope)
    ensures Owned(Redeem(s, key, scope).0) && Redeem(s, key, scope).1.Reset?
    ensures OfferKey(scope) !in s.owners
  {}

  lemma RedeemKeepsInv(s: State, key: Key, scope: Scope)
    requires Inv(s) && key !in s.operations && CurrentScope(s) == Some(scope)
    ensures Inv(Redeem(s, key, scope).0) && Redeem(s, key, scope).1.Reset?
    ensures OfferKey(scope) !in s.owners
  {
    RedeemConserves(s, key, scope);
    RedeemKeepsOwned(s, key, scope);
  }

  lemma InvStep(s: State, e: Event)
    requires Inv(s)
    ensures Inv(Apply(s, e))
  {
    match e
    case Select(account) =>
      forall a ensures ResetKeys(Apply(s, e), a) == ResetKeys(s, a) {}
    case Consume(key, scope) =>
      if key.Some? && key.value !in s.operations && CurrentScope(s).Some? {
        RedeemKeepsInv(s, key.value, CurrentScope(s).value);
      }
  }

  lemma {:induction false} RunKeepsInv(s: State, es: seq<Event>)
    requires Inv(s)
    ensures Inv(Run(s, es))
    decreases |es|
  {
    if es != [] {
      InvStep(s, es[0]);
      RunKeepsInv(Apply(s, es[0]), es[1..]);
    }
  }

  lemma FixtureInv(now: int)
    ensures Inv(Fixture(now))
  {
    forall a: Account ensures a in Fixture(now).usage && ResetKeys(Fixture(now), a) == {} {
      assert a.Personal? || a.Team?;
    }
  }

  /** From one reset of the fixture to the next, the credits left on an account and the distinct
      operations that reset it add up to what it started with. */
  lemma CreditsAreConserved(now: int, es: seq<Event>, a: Account)
    ensures var s := Run(Fixture(now), es);
            a in s.usage && s.usage[a].credits + |ResetKeys(s, a)| == Fixture(now).usage[a].credits
  {
    FixtureInv(now);
    RunKeepsInv(Fixture(now), es);
  }

  /** No offer is redeemed under two keys. */
  lemma OffersAreRedeemedOnce(now: int, es: seq<Event>, j: Key, k: Key)
    requires var s := Run(Fixture(now), es);
             j in s.operations && k in s.operations && s.operations[j].scope == s.operations[k].scope
    ensures j == k
  {
    FixtureInv(now);
    RunKeepsInv(Fixture(now), es);
  }

  /** Two answers the code provides for never come: a redeemed offer is no longer on offer, so neither
      is a credit ever found missing nor an offer found taken. */
  lemma NoCreditNeverHappens(now: int, es: seq<Event>, key: Option<Key>, scope: Option<ScopeKey>)
    ensures ConsumeCredit(Run(Fixture(now), es), key, scope).1 != Done(NoCredit)
    ensures ConsumeCredit(Run(Fixture(now), es), key, scope).1 != Fails(AlreadyRedeemed)
  {
    FixtureInv(now);
    RunKeepsInv(Fixture(now), es);
    var s := Run(Fixture(now), es);
    if key.Some? && key.value !in s.operations && CurrentScope(s).Some? {
      RedeemKeepsInv(s, key.value, CurrentScope(s).value);
    }
  }

  // ----- what a new key is answered

  /** Usage is dated by the fixture, and one later once the credit is gone. */
  ghost predicate Dated(s: State, now: int) {
    && s.startedAt == now
    && forall a: Account :: a in s.usage && s.usage[a].credits <= 1
                            && s.usage[a].updatedAt == now + (if a.Personal? then 0 else 1) + (1 - s.usage[a].credits)
  }

  lemma DatedStep(s: State, e: Event, now: int)
    requires Dated(s, now)
    ensures Dated(Apply(s, e), now)
  {}

  lemma {:induction false} DatedRun(s: State, es: seq<Event>, now: int)
    requires Dated(s, now)
    ensures Dated(Run(s, es), now)
    decreases |es|
  {
    if es != [] {
      DatedStep(s, es[0], now);
      DatedRun(Apply(s, es[0]), es[1..], now);
    }
  }

  lemma FixtureIsDated(now: int)
    ensures Dated(Fixture(now), now)
  {
    forall a: Account ensures a in Fixture(now).usage {
      assert a.Personal? || a.Team?;
    }
  }

  /** The scope is what the server shows of the active account while that has its credit; its revision has to be
      a safe integer. */
  ghost predicate IsOffered(s: State, now: int, scope: ScopeKey) {
    && s.active.Some? && s.active.value in s.usage && s.usage[s.active.value].credits == 1
    && var u := s.usage[s.active.value];
       && 0 <= u.updatedAt <= 9007199254740991
       && scope == OfferKey(Scope(s.active.value, 1, u.sessionUsed, u.updatedAt, u.nextExpiresAt, now))
  }

  lemma OfferedIff(s: State, now: int, scope: ScopeKey)
    requires Dated(s, now)
    ensures IsOffered(s, now, scope) <==> CurrentScope(s).Some? && OfferKey(CurrentScope(s).value) == scope
  {}

  lemma OfferIsRedeemed(s: State, now: int, key: Key, scope: ScopeKey)
    requires Inv(s) && IsOffered(s, now, scope) && key !in s.operations
    requires CurrentScope(s).Some? && OfferKey(CurrentScope(s).value) == scope
    ensures ConsumeCredit(s, Some(key), Some(scope)) == (Redeem(s, key, CurrentScope(s).value).0, Done(Reset))
    ensures var t, a := Redeem(s, key, CurrentScope(s).value).0, s.active.value;
            && t.usage == s.usage[a := Usage(0, 0, s.usage[a].updatedAt + 1, s.usage[a].nextExpiresAt)]
            && t.operations == s.operations[key := Operation(scope, Reset)]
            && t.active == s.active && t.startedAt == s.startedAt
  {
    RedeemKeepsInv(s, key, CurrentScope(s).value);
  }

  /** After any history a key not used before is answered with a reset if and only if it comes with the scope that
      is offered: the account's credit and its use of the session are gone, and nothing else changes but the
      record. With any other scope the offer is said to have changed, and nothing changes. */
  lemma NewKeyResetsIff(now: int, es: seq<Event>, key: Key, scope: ScopeKey)
    requires key !in Run(Fixture(now), es).operations
    ensures var s := Run(Fixture(now), es);
            var (t, response) := ConsumeCredit(s, Some(key), Some(scope));
            if IsOffered(s, now, scope) then
              var a := s.active.value;
              && response == Done(Reset)
              && t.usage == s.usage[a := Usage(0, 0, s.usage[a].updatedAt + 1, s.usage[a].nextExpiresAt)]
              && t.operations == s.operations[key := Operation(scope, Reset)]
              && t.active == s.active && t.startedAt == s.startedAt
            else response == OfferChanged && t == s
  {
    var s := Run(Fixture(now), es);
    FixtureInv(now);
    RunKeepsInv(Fixture(now), es);
    FixtureIsDated(now);
    DatedRun(Fixture(now), es, now);
    OfferedIff(s, now, scope);
    if IsOffered(s, now, scope) {
      OfferIsRedeemed(s, now, key, scope);
    }
  }

  // ----- idempotence

  lemma {:induction false} OperationsStay(s: State, es: seq<Event>, key: Key)
    requires key in s.operations
    ensures key in Run(s, es).operations && Run(s, es).operations[key] == s.operations[key]
    decreases |es|
  {
    if es != [] {
      OperationsStay(Apply(s, es[0]), es[1..], key);
    }
  }

  /** Repeating an accepted request at any later time gives the same outcome and changes nothing; with
      another scope the same key is refused, and that changes nothing either. */
  lemma RepeatingIsIdempotent(s: State, key: Key, scope: ScopeKey, es: seq<Event>, other: ScopeKey)
    requires ConsumeCredit(s, Some(key), Some(scope)).1.Done?
    ensures var (accepted, response) := ConsumeCredit(s, Some(key), Some(scope));
            var later := Run(accepted, es);
            && ConsumeCredit(later, Some(key), Some(scope)) == (later, response)
            && (other != scope ==> ConsumeCredit(later, Some(key), Some(other)) == (later, Fails(DifferentScope)))
  {
    OperationsStay(ConsumeCredit(s, Some(key), Some(scope)).0, es, key);
  }

  // ----- the module state, updated in place

  class MockAccounts {
    var startedAt: int
    var active: Option<Account>
    var usage: map<Account, Usage>
    var operations: map<Key, Operation>
    var owners: map<ScopeKey, Key>

    ghost function Model(): State
      reads this
    {
      State(startedAt, active, usage, operations, owners)
    }

    constructor (now: int)
      ensures Model() == Fixture(now)
    {
      startedAt, active, operations, owners := now, Some(Personal), map[], map[];
      usage := map[Personal := InitialUsage(now, Personal), Team := InitialUsage(now, Team)];
    }

    method ResetMockAccountState(now: int)
      modifies this
      ensures Model() == Fixture(now)
    {
      startedAt, active, operations, owners := now, Some(Personal), map[], map[];
      usage := map[Personal := InitialUsage(now, Personal), Team := InitialUsage(now, Team)];
    }

    method SelectMockCodexAccount(account: Option<Account>)
      modifies this`active
      ensures Model() == Apply(old(Model()), Select(account))
    {
      active := account;
    }

    method ConsumeMockCodexResetCredit(key: Option<Key>, expectedScope: Option<ScopeKey>) returns (response: Response)
      modifies this
      ensures Model() == Apply(old(Model()), Consume(key, expectedScope))
      ensures response == ConsumeCredit(old(Model()), key, expectedScope).1
      ensures !response.Done? ==> Model() == old(Model())
      ensures response.Done? ==> key.value in operations && operations[key.value].outcome == response.outcome
    {
      if key.None? {
        return Fails(InvalidKey);
      }
      if expectedScope.None? {
        return Fails(MissingScope);
      }
      if key.value in operations {
        var previous := operations[key.value];
        if previous.scope != expectedScope.value {
          return Fails(DifferentScope);
        }
        return Done(previous.outcome);
      }
      var current := CurrentScope(State(startedAt, active, usage, operations, owners));
      if current.None? || OfferKey(current.value) != expectedScope.value {
        return OfferChanged;
      }
      var offer := expectedScope.value;
      if offer in owners && owners[offer] != key.value {
        return Fails(AlreadyRedeemed);
      }
      owners := owners[offer := key.value];
      var account := current.value.account;
      var outcome := if account in usage && usage[account].credits > 0 then Reset else NoCredit;
      operations := operations[key.value := Operation(offer, outcome)];
      if account in usage && outcome.Reset? {
        var u := usage[account];
        usage := usage[account := u.(credits := 0, sessionUsed := 0, updatedAt := u.updatedAt + 1)];
      }
      return Done(outcome);
    }
  }
}
