/** The GPU coordinator: one epoch, one availability flag, and the capability tokens it issues. */
module GpuCoordinatorModel {
  import opened Common
  import opened GpuTypes

  datatype CoordinatorError = StaleToken | AdapterUnavailable

  datatype State = State(epoch: U64, available: bool)

  const INITIAL := State(1, true)

  function Issue(s: State, profileId: Uuid, mode: Mode): Result<ScopeToken, CoordinatorError> {
    if !s.available then Failure(AdapterUnavailable) else Success(ScopeToken(profileId, mode, s.epoch))
  }

  function Validate(s: State, token: ScopeToken): Result<(), CoordinatorError> {
    if token.epoch == s.epoch then Success(()) else Failure(StaleToken)
  }

  function AfterLoss(s: State): State {
    s.(available := false)
  }

  function AfterRecovery(s: State): State {
    State(WrappingIncrement(s.epoch), true)
  }

  class GpuCoordinator {
    var epoch: U64
    var available: bool

    ghost function View(): State
      reads this
    {
      State(epoch, available)
    }

    constructor ()
      ensures View() == INITIAL
    {
      epoch, available := 1, true;
    }

    method IssueScopeToken(profileId: Uuid, mode: Mode) returns (r: Result<ScopeToken, CoordinatorError>)
      ensures r == Issue(View(), profileId, mode)
    {
      if !available {
        return Failure(AdapterUnavailable);
      }
      r := Success(ScopeToken(profileId, mode, epoch));
    }

    method ValidateToken(token: ScopeToken) returns (r: Result<(), CoordinatorError>)
      ensures r == Validate(View(), token)
    {
      r := if token.epoch == epoch then Success(()) else Failure(StaleToken);
    }

    method OnAdapterLoss()
      modifies this
      ensures View() == AfterLoss(old(View()))
    {
      available := false;
    }

    method RecoverAfterLoss()
      modifies this
      ensures View() == AfterRecovery(old(View()))
    {
      epoch := WrappingIncrement(epoch);
      available := true;
    }
  }

  // --------------------------------------------------------------- runs

  datatype Event = Loss | Recovery

  function After(s: State, events: seq<Event>): State
    decreases |events|
  {
    if events == [] then s
    else After(if events[0].Loss? then AfterLoss(s) else AfterRecovery(s), events[1..])
  }

  function Recoveries(events: seq<Event>): nat {
    if events == [] then 0 else (if events[0].Recovery? then 1 else 0) + Recoveries(events[1..])
  }

  lemma {:induction false} EpochCountsRecoveries(s: State, events: seq<Event>)
    ensures After(s, events).epoch == (s.epoch + Recoveries(events)) % TWO_64
    decreases |events|
  {
    if events == [] {
      assert s.epoch % TWO_64 == s.epoch;
    } else {
      EpochCountsRecoveries(if events[0].Loss? then AfterLoss(s) else AfterRecovery(s), events[1..]);
    }
  }

  /**
   * A token stays valid through any losses, and dies with the first recovery: a token issued in
   * state `s` validates later exactly when the number of recoveries since is a multiple of 2^64.
   */
  lemma TokenValidIff(s: State, profileId: Uuid, mode: Mode, events: seq<Event>)
    requires s.available
    ensures var token := Issue(s, profileId, mode).value;
      && Validate(s, token).Success?
      && (Validate(After(s, events), token).Success? <==> Recoveries(events) % TWO_64 == 0)
    ensures var token := Issue(s, profileId, mode).value;
      Recoveries(events) < TWO_64 ==> (Validate(After(s, events), token).Success? <==> Recoveries(events) == 0)
  {
    EpochCountsRecoveries(s, events);
    WrappedBackIff(s.epoch, Recoveries(events));
  }

  lemma WrappedBackIff(epoch: U64, n: nat)
    ensures (epoch + n) % TWO_64 == epoch <==> n % TWO_64 == 0
  {
    var q, r := n / TWO_64, n % TWO_64;
    assert n == q * TWO_64 + r;
    if epoch + r < TWO_64 {
      assert (epoch + n) % TWO_64 == epoch + r;
    } else {
      assert epoch + n == (q + 1) * TWO_64 + (epoch + r - TWO_64);
      assert (epoch + n) % TWO_64 == epoch + r - TWO_64;
    }
  }

  /** The adapter is there from the start and after a recovery, until the next loss. */
  lemma {:induction false} AvailableAfter(s: State, events: seq<Event>)
    ensures After(s, events).available <==> if events == [] then s.available else events[|events| - 1].Recovery?
    decreases |events|
  {
    if events == [] {
    } else {
      AvailableAfter(if events[0].Loss? then AfterLoss(s) else AfterRecovery(s), events[1..]);
    }
  }

  /**
   * In every run from start-up a token is issued if and only if no loss is waiting for its recovery, and
   * then for the identity and mode asked for, on an epoch that counts the recoveries so far.
   */
  lemma IssuedIff(events: seq<Event>, profileId: Uuid, mode: Mode)
    ensures Issue(After(INITIAL, events), profileId, mode)
         == if events == [] || events[|events| - 1].Recovery?
            then Success(ScopeToken(profileId, mode, (1 + Recoveries(events)) % TWO_64))
            else Failure(AdapterUnavailable)
  {
    AvailableAfter(INITIAL, events);
    EpochCountsRecoveries(INITIAL, events);
  }
}
