/** The circuit breaker object, and what holds over every interleaving of its calls. */
module CircuitBreakers {

  datatype State = Closed | Open | HalfOpen

  datatype Config = Config(failureThreshold: nat, resetTimeout: nat, halfOpenMaxCalls: nat)

  predicate Sensible(c: Config) { c.failureThreshold >= 1 && c.halfOpenMaxCalls >= 1 }

  /** The fields of the breaker. */
  datatype Circuit = Circuit(state: State, failures: nat, openedAt: int, halfOpenCalls: nat)

  // ----- steps ----------------------------------------------------------------------------

  /** What happens at the breaker between two awaits. Completions may come late; `counted` classifies an error. */
  datatype Event =
    | Arrive(now: int) | Query(now: int)
    | Succeed(now: int) | Fail(now: int, counted: bool)
    | Reset(now: int)

  function Polled(c: Config, s: Circuit, now: int): Circuit {
    if s.state == Open && now - s.openedAt >= c.resetTimeout then s.(state := HalfOpen, halfOpenCalls := 0) else s
  }

  /** Whether a call that arrives now is let through. */
  predicate Admits(c: Config, s: Circuit, now: int) {
    var p := Polled(c, s, now);
    p.state == Closed || (p.state == HalfOpen && p.halfOpenCalls < c.halfOpenMaxCalls)
  }

  function Step(c: Config, s: Circuit, e: Event): Circuit {
    match e
    case Arrive(now) =>
      var p := Polled(c, s, now);
      if p.state == HalfOpen then p.(halfOpenCalls := p.halfOpenCalls + 1) else p
    case Query(now) => Polled(c, s, now)
    case Succeed(_) => s.(failures := 0, state := if s.state == HalfOpen then Closed else s.state)
    case Fail(now, counted) =>
      if !counted then s
      else if s.state == HalfOpen || s.failures + 1 >= c.failureThreshold
      then s.(failures := s.failures + 1, openedAt := now, state := Open)
      else s.(failures := s.failures + 1)
    case Reset(_) => s.(failures := 0, state := Closed)
  }

  class CircuitBreaker {
    var state: State
    var failures: nat
    var openedAt: int
    var halfOpenCalls: nat
    const config: Config

    constructor (failureThreshold: int, resetTimeout: int, halfOpenMaxCalls: int)
      ensures Sensible(config) && Model() == Circuit(Closed, 0, 0, 0)
      ensures failureThreshold >= 1 ==> config.failureThreshold == failureThreshold
      ensures resetTimeout >= 0 ==> config.resetTimeout == resetTimeout
      ensures halfOpenMaxCalls >= 1 ==> config.halfOpenMaxCalls == halfOpenMaxCalls
    {
      state, failures, openedAt, halfOpenCalls := Closed, 0, 0, 0;
      config := Config(if failureThreshold < 1 then 1 else failureThreshold,
                       if resetTimeout < 0 then 0 else resetTimeout,
                       if halfOpenMaxCalls < 1 then 1 else halfOpenMaxCalls);
    }

    ghost function Model(): Circuit reads this { Circuit(state, failures, openedAt, halfOpenCalls) }

    method GetState(now: int) returns (s: State)
      modifies this
      ensures Model() == Step(config, old(Model()), Query(now)) && s == state
    {
      if state == Open && now - openedAt >= config.resetTimeout {
        state := HalfOpen;
        halfOpenCalls := 0;
      }
      return state;
    }

    /** `execute` up to the call of the guarded function: admitted, or refused with the circuit open. */
    method Enter(now: int) returns (admitted: bool)
      modifies this
      ensures Model() == Step(config, old(Model()), Arrive(now))
      ensures admitted <==> Admits(config, old(Model()), now)
    {
      var s := GetState(now);
      if s == Open { return false; }
      if s == HalfOpen {
        halfOpenCalls := halfOpenCalls + 1;
        if halfOpenCalls > config.halfOpenMaxCalls { return false; }
      }
      return true;
    }

    method OnSuccess(ghost now: int)
      modifies this
      ensures Model() == Step(config, old(Model()), Succeed(now))
    {
      failures := 0;
      if state == HalfOpen { state := Closed; }
    }

    method OnFailure(now: int, isFailure: bool)
      modifies this
      ensures Model() == Step(config, old(Model()), Fail(now, isFailure))
    {
      if !isFailure { return; }
      failures := failures + 1;
      if state == HalfOpen {
        openedAt := now;
        state := Open;
      } else if failures >= config.failureThreshold {
        openedAt := now;
        state := Open;
      }
    }

    method ForceClosed(ghost now: int)
      modifies this
      ensures Model() == Step(config, old(Model()), Reset(now))
    {
      failures := 0;
      state := Closed;
    }
  }

  // ----- runs -----------------------------------------------------------------------------

  /** The clock does not run backwards, from `from` on. */
  ghost predicate Timely(events: seq<Event>, from: int) {
    && (events != [] ==> from <= events[0].now)
    && forall i, j | 0 <= i < j < |events| :: events[i].now <= events[j].now
  }

  /** The circuit after `n` events. */
  function After(c: Config, s: Circuit, events: seq<Event>, n: nat): Circuit
    requires n <= |events|
  {
    if n == 0 then s else Step(c, After(c, s, events, n - 1), events[n - 1])
  }

  /** What every step keeps: while closed there are fewer failures than the threshold, and a half-open circuit has
      waited out its timeout. */
  ghost predicate Sound(c: Config, s: Circuit, now: int) {
    && (s.state == Closed ==> s.failures < c.failureThreshold)
    && (s.state == HalfOpen ==> now - s.openedAt >= c.resetTimeout)
    && (s.state != Closed ==> s.openedAt <= now)
  }

  lemma StepKeepsSound(c: Config, s: Circuit, e: Event, now: int)
    requires Sensible(c) && Sound(c, s, now) && now <= e.now
    ensures Sound(c, Step(c, s, e), e.now)
  {
  }

  lemma {:induction false} RunKeepsSound(c: Config, s: Circuit, events: seq<Event>, now: int, n: nat)
    requires Sensible(c) && Sound(c, s, now) && Timely(events, now) && n <= |events|
    ensures Sound(c, After(c, s, events, n), if n == 0 then now else events[n - 1].now)
  {
    if n > 0 {
      RunKeepsSound(c, s, events, now, n - 1);
      StepKeepsSound(c, After(c, s, events, n - 1), events[n - 1], if n == 1 then now else events[n - 2].now);
    }
  }

  /** The breaker as constructed. */
  const INITIAL := Circuit(Closed, 0, 0, 0)

  /** Over every run from the start: closed implies fewer failures in a row than the threshold. */
  lemma ClosedBelowThreshold(c: Config, events: seq<Event>, n: nat)
    requires Sensible(c) && Timely(events, 0) && n <= |events|
    ensures var s := After(c, INITIAL, events, n); s.state == Closed ==> s.failures < c.failureThreshold
  {
    RunKeepsSound(c, INITIAL, events, 0, n);
  }

  /** Event `k` opens the circuit, or opens it anew while it is open. */
  ghost predicate Opens(c: Config, events: seq<Event>, k: nat)
    requires k < |events|
  {
    var s := After(c, INITIAL, events, k + 1);
    events[k].Fail? && events[k].counted && s.state == Open && s.openedAt == events[k].now
  }

  lemma {:induction false} OpenedAtGrows(c: Config, events: seq<Event>, k: nat, n: nat)
    requires Sensible(c) && Timely(events, 0) && k < n <= |events| && Opens(c, events, k)
    ensures After(c, INITIAL, events, n).openedAt >= events[k].now
    decreases n
  {
    if n > k + 1 {
      OpenedAtGrows(c, events, k, n - 1);
      assert events[k].now <= events[n - 1].now;
    }
  }

  /** Over every run: once the circuit opened, no call is admitted before the timeout has passed, unless the
      circuit was closed in between. */
  lemma NoAdmissionBeforeTimeout(c: Config, events: seq<Event>, k: nat, i: nat)
    requires Sensible(c) && Timely(events, 0) && k < i < |events| && Opens(c, events, k)
    requires After(c, INITIAL, events, i).state != Closed
    requires events[i].Arrive? && Admits(c, After(c, INITIAL, events, i), events[i].now)
    ensures events[i].now >= events[k].now + c.resetTimeout
  {
    OpenedAtGrows(c, events, k, i);
    RunKeepsSound(c, INITIAL, events, 0, i);
    assert events[i - 1].now <= events[i].now;
  }

  /** Calls admitted by the events from `a` up to `b`. */
  function Admissions(c: Config, s: Circuit, events: seq<Event>, a: nat, b: nat): (n: nat)
    requires a <= b <= |events|
    decreases b - a
  {
    if a == b then 0
    else Admissions(c, s, events, a, b - 1)
         + (var t := After(c, s, events, b - 1);
            if events[b - 1].Arrive? && Admits(c, t, events[b - 1].now) then 1 else 0)
  }

  lemma {:induction false} AdmissionsAreCounted(c: Config, s: Circuit, events: seq<Event>, a: nat, b: nat)
    requires a < b <= |events|
    requires forall n | a < n <= b :: After(c, s, events, n).state == HalfOpen
    ensures var m := Admissions(c, s, events, a, b);
            m <= c.halfOpenMaxCalls && m <= After(c, s, events, b).halfOpenCalls
    decreases b - a
  {
    var t := After(c, s, events, b - 1);
    assert After(c, s, events, b) == Step(c, t, events[b - 1]);
    if a < b - 1 {
      AdmissionsAreCounted(c, s, events, a, b - 1);
    } else {
      assert Admissions(c, s, events, a, a) == 0;
    }
  }

  /** Over every run: while the circuit stays half-open it admits at most `halfOpenMaxCalls` calls. */
  lemma EpisodeIsBounded(c: Config, events: seq<Event>, a: nat, b: nat)
    requires Sensible(c) && a < b <= |events|
    requires forall n | a < n <= b :: After(c, INITIAL, events, n).state == HalfOpen
    ensures Admissions(c, INITIAL, events, a, b) <= c.halfOpenMaxCalls
  {
    AdmissionsAreCounted(c, INITIAL, events, a, b);
  }

  /** Counted failures since the last success or reset. */
  function InARow(events: seq<Event>, n: nat): nat
    requires n <= |events|
  {
    if n == 0 then 0
    else
      match events[n - 1]
      case Succeed(_) => 0
      case Reset(_) => 0
      case Fail(_, counted) => InARow(events, n - 1) + if counted then 1 else 0
      case _ => InARow(events, n - 1)
  }

  lemma {:induction false} FailuresAreInARow(c: Config, events: seq<Event>, n: nat)
    requires n <= |events|
    ensures After(c, INITIAL, events, n).failures == InARow(events, n)
  {
    if n > 0 { FailuresAreInARow(c, events, n - 1); }
  }

  /** Over every run: an event opens a closed circuit if and only if it is a counted failure and as many as the
      threshold have now happened in a row; any counted failure opens a half-open one. */
  lemma OpensExactly(c: Config, events: seq<Event>, n: nat)
    requires Sensible(c) && n < |events|
    ensures var s, t := After(c, INITIAL, events, n), After(c, INITIAL, events, n + 1);
            var failure := events[n].Fail? && events[n].counted;
            && (s.state == Closed ==> (t.state == Open <==> failure && InARow(events, n + 1) >= c.failureThreshold))
            && (s.state == HalfOpen ==> (t.state == Open <==> failure))
  {
    FailuresAreInARow(c, events, n + 1);
  }

  /** Calls that arrive in the events from `a` up to `b`. */
  function Arrivals(events: seq<Event>, a: nat, b: nat): nat
    requires a <= b <= |events|
    decreases b - a
  {
    if a == b then 0 else Arrivals(events, a, b - 1) + if events[b - 1].Arrive? then 1 else 0
  }

  lemma {:induction false} EpisodeCounts(c: Config, events: seq<Event>, a: nat, b: nat)
    requires Sensible(c) && a < b <= |events| && After(c, INITIAL, events, a).state != HalfOpen
    requires forall n | a < n <= b :: After(c, INITIAL, events, n).state == HalfOpen
    ensures var calls := Arrivals(events, a, b);
            && After(c, INITIAL, events, b).halfOpenCalls == calls
            && Admissions(c, INITIAL, events, a, b)
               == if calls < c.halfOpenMaxCalls then calls else c.halfOpenMaxCalls
    decreases b - a
  {
    var t := After(c, INITIAL, events, b - 1);
    assert After(c, INITIAL, events, b) == Step(c, t, events[b - 1]);
    if a < b - 1 {
      EpisodeCounts(c, events, a, b - 1);
    } else {
      assert Admissions(c, INITIAL, events, a, a) == 0 && Arrivals(events, a, a) == 0;
    }
  }

  /** Over every run: a half-open episode admits exactly the first `halfOpenMaxCalls` calls that arrive in it. */
  lemma EpisodeAdmitsTheFirst(c: Config, events: seq<Event>, a: nat, b: nat)
    requires Sensible(c) && a < b < |events| && After(c, INITIAL, events, a).state != HalfOpen
    requires forall n | a < n <= b :: After(c, INITIAL, events, n).state == HalfOpen
    requires events[b].Arrive?
    ensures Admits(c, After(c, INITIAL, events, b), events[b].now) <==> Arrivals(events, a, b) < c.halfOpenMaxCalls
  {
    EpisodeCounts(c, events, a, b);
  }

  /** A half-open circuit that has admitted all its probes. */
  predicate UsedUp(c: Config, s: Circuit) { s.state == HalfOpen && s.halfOpenCalls >= c.halfOpenMaxCalls }

  /** A success, a counted failure or a reset ends a half-open episode. */
  predicate Frees(e: Event) { e.Succeed? || e.Reset? || (e.Fail? && e.counted) }

  /** While no event ends the episode, such as when all probes ended in errors that are not counted, the breaker refuses
      every call. */
  lemma {:induction false} UncountedProbesStick(c: Config, s: Circuit, events: seq<Event>, n: nat)
    requires UsedUp(c, s) && n <= |events| && forall i | 0 <= i < n :: !Frees(events[i])
    ensures var t := After(c, s, events, n); UsedUp(c, t) && forall now :: !Admits(c, t, now)
  {
    if n > 0 { UncountedProbesStick(c, s, events, n - 1); }
  }

  /** The first event that ends the episode decides when calls are admitted again: at once after a success or a reset,
      after the timeout when a counted failure has opened the circuit. */
  lemma UsedUpAdmitsAgain(c: Config, s: Circuit, events: seq<Event>, n: nat, now: int)
    requires Sensible(c) && UsedUp(c, s) && n < |events| && forall i | 0 <= i < n :: !Frees(events[i])
    ensures Admits(c, After(c, s, events, n + 1), now) <==>
            match events[n]
            case Succeed(_) => true
            case Reset(_) => true
            case Fail(at, counted) => counted && now - at >= c.resetTimeout
            case _ => false
  {
    UncountedProbesStick(c, s, events, n);
  }

  /** Over every run: with its probes used up the breaker comes to admit a call again, at some time, if and only if the
      run has a success, a counted failure or a reset. */
  lemma ProbesStickExactly(c: Config, s: Circuit, events: seq<Event>)
    requires Sensible(c) && UsedUp(c, s)
    ensures (exists n, now | 0 <= n <= |events| :: Admits(c, After(c, s, events, n), now))
            <==> exists i | 0 <= i < |events| :: Frees(events[i])
  {
    hide After, Admits;
    if i :| 0 <= i < |events| && Frees(events[i]) {
      var n := FirstFreeing(events, i);
      var now := events[n].now + c.resetTimeout;
      UsedUpAdmitsAgain(c, s, events, n, now);
      assert Admits(c, After(c, s, events, n + 1), now);
    } else {
      forall n, now | 0 <= n <= |events| ensures !Admits(c, After(c, s, events, n), now) {
        UncountedProbesStick(c, s, events, n);
      }
    }
  }

  lemma {:induction false} FirstFreeing(events: seq<Event>, i: nat) returns (n: nat)
    requires i < |events| && Frees(events[i])
    ensures n <= i && Frees(events[n]) && forall k | 0 <= k < n :: !Frees(events[k])
  {
    n := i;
    if k :| 0 <= k < i && Frees(events[k]) { n := FirstFreeing(events, k); }
  }

  // ----- how many successes close it ------------------------------------------------------

  /** Calls in flight after `n` events: admitted and not yet settled. */
  function InFlight(c: Config, events: seq<Event>, n: nat): int
    requires n <= |events|
  {
    if n == 0 then 0
    else
      InFlight(c, events, n - 1)
      + match events[n - 1]
        case Arrive(now) => if Admits(c, After(c, INITIAL, events, n - 1), now) then 1 else 0
        case Succeed(_) => -1
        case Fail(_, _) => -1
        case _ => 0
  }

  /** Runs that can happen: the clock does not run backwards, and only admitted calls settle. */
  ghost predicate Possible(c: Config, events: seq<Event>) {
    Timely(events, 0) && forall n | 0 <= n <= |events| :: InFlight(c, events, n) >= 0
  }

  /** A half-open episode from event `a`, which begins it, to event `b`, which closes the circuit and is no reset. */
  ghost predicate ClosingEpisode(c: Config, events: seq<Event>, a: nat, b: nat) {
    && Possible(c, events) && a < b < |events|
    && After(c, INITIAL, events, a).state != HalfOpen
    && (forall n | a < n <= b :: After(c, INITIAL, events, n).state == HalfOpen)
    && After(c, INITIAL, events, b + 1).state == Closed && !events[b].Reset?
  }

  /** Successes among the events after `a`, up to and with `b`. */
  function Successes(events: seq<Event>, a: nat, b: nat): nat
    requires b < |events|
  {
    if b <= a then 0 else Successes(events, a, b - 1) + if events[b].Succeed? then 1 else 0
  }

  /** An episode that closes the circuit has seen one success, its last event, whatever the configuration. */
  lemma {:induction false} OneSuccessCloses(c: Config, events: seq<Event>, a: nat, b: nat)
    requires ClosingEpisode(c, events, a, b)
    ensures events[b].Succeed? && Successes(events, a, b) == 1
  {
    assert After(c, INITIAL, events, b).state == HalfOpen;
    NoSuccessBefore(c, events, a, b, b - 1);
  }

  lemma {:induction false} NoSuccessBefore(c: Config, events: seq<Event>, a: nat, b: nat, m: nat)
    requires b < |events| && a <= m < b
    requires forall n | a < n <= b :: After(c, INITIAL, events, n).state == HalfOpen
    ensures Successes(events, a, m) == 0
  {
    if a < m {
      NoSuccessBefore(c, events, a, b, m - 1);
      assert After(c, INITIAL, events, m).state == HalfOpen && After(c, INITIAL, events, m + 1).state == HalfOpen;
    }
  }

  /** `n` calls that fail one after the other. */
  function Failing(n: nat): (events: seq<Event>)
    ensures |events| == 2 * n && forall e | e in events :: e.now == 0
  {
    if n == 0 then [] else Failing(n - 1) + [Arrive(0), Fail(0, true)]
  }

  lemma {:induction false} RunPrefix(c: Config, events: seq<Event>, more: seq<Event>, n: nat)
    requires n <= |events|
    ensures After(c, INITIAL, events + more, n) == After(c, INITIAL, events, n)
    ensures InFlight(c, events + more, n) == InFlight(c, events, n)
  {
    if n > 0 {
      RunPrefix(c, events, more, n - 1);
      assert (events + more)[n - 1] == events[n - 1];
    }
  }

  /** Two more events after a run. */
  lemma TwoMore(c: Config, events: seq<Event>, e: Event, f: Event)
    ensures var all, s := events + [e, f], After(c, INITIAL, events, |events|);
            && After(c, INITIAL, all, |events|) == s
            && After(c, INITIAL, all, |events| + 1) == Step(c, s, e)
            && After(c, INITIAL, all, |events| + 2) == Step(c, Step(c, s, e), f)
            && InFlight(c, all, |events|) == InFlight(c, events, |events|)
            && (e.Arrive? && Admits(c, s, e.now) && (f.Succeed? || f.Fail?) ==>
                  && InFlight(c, all, |events| + 1) == InFlight(c, events, |events|) + 1
                  && InFlight(c, all, |events| + 2) == InFlight(c, events, |events|))
  {
    RunPrefix(c, events, [e, f], |events|);
    hide Step, Admits;
  }

  lemma {:induction false} FailingOpens(c: Config, n: nat)
    requires Sensible(c) && n <= c.failureThreshold
    ensures var events := Failing(n);
            && After(c, INITIAL, events, |events|) == Circuit(if n < c.failureThreshold then Closed else Open, n, 0, 0)
            && InFlight(c, events, |events|) == 0
            && forall m | 0 <= m <= |events| :: InFlight(c, events, m) >= 0
  {
    if n > 0 {
      var before := Failing(n - 1);
      FailingOpens(c, n - 1);
      OneFailure(c, n);
      hide After, InFlight, Step, Admits;
      TwoMore(c, before, Arrive(0), Fail(0, true));
      NeverNegative(c, before, Arrive(0), Fail(0, true));
    }
  }

  lemma OneFailure(c: Config, n: nat)
    requires Sensible(c) && 0 < n <= c.failureThreshold
    ensures var s := Circuit(Closed, n - 1, 0, 0);
            && Admits(c, s, 0) && Step(c, s, Arrive(0)) == s
            && Step(c, s, Fail(0, true)) == Circuit(if n < c.failureThreshold then Closed else Open, n, 0, 0)
  {
  }

  lemma NeverNegative(c: Config, events: seq<Event>, e: Event, f: Event)
    requires forall m | 0 <= m <= |events| :: InFlight(c, events, m) >= 0
    requires InFlight(c, events + [e, f], |events| + 1) >= 0 && InFlight(c, events + [e, f], |events| + 2) >= 0
    ensures forall m | 0 <= m <= |events| + 2 :: InFlight(c, events + [e, f], m) >= 0
  {
    hide InFlight, After;
    forall m | 0 <= m <= |events| + 2 ensures InFlight(c, events + [e, f], m) >= 0 {
      if m <= |events| { RunPrefix(c, events, [e, f], m); }
    }
  }

  /** Enough failures to open the circuit, then a probe after the timeout that succeeds. */
  function OneProbe(c: Config): seq<Event> {
    Failing(c.failureThreshold) + [Arrive(c.resetTimeout), Succeed(c.resetTimeout)]
  }

  lemma OneProbeCloses(c: Config)
    requires Sensible(c)
    ensures var a := 2 * c.failureThreshold; ClosingEpisode(c, OneProbe(c), a, a + 1)
  {
    var failing := Failing(c.failureThreshold);
    var e, f := Arrive(c.resetTimeout), Succeed(c.resetTimeout);
    FailingOpens(c, c.failureThreshold);
    ProbeSucceeds(c);
    ProbeIsTimely(c);
    hide After, InFlight, Step, Admits, Timely, Failing;
    TwoMore(c, failing, e, f);
    NeverNegative(c, failing, e, f);
  }

  lemma ProbeSucceeds(c: Config)
    requires Sensible(c)
    ensures var s, now := Circuit(Open, c.failureThreshold, 0, 0), c.resetTimeout;
            var p := Step(c, s, Arrive(now));
            Admits(c, s, now) && p.state == HalfOpen && Step(c, p, Succeed(now)).state == Closed
  {
  }

  lemma ProbeIsTimely(c: Config)
    ensures Timely(OneProbe(c), 0)
  {
    var failing, all := Failing(c.failureThreshold), OneProbe(c);
    assert forall i | 0 <= i < |failing| :: all[i] == failing[i] && failing[i] in failing;
    assert forall i | |failing| <= i < |all| :: all[i].now == c.resetTimeout;
  }

  /** The number of successes that the options promise to require is the one that closes the circuit, in every
      half-open episode of every run, if and only if it is one. */
  lemma ProbesToClose(c: Config)
    requires Sensible(c)
    ensures (forall events: seq<Event>, a: nat, b: nat | ClosingEpisode(c, events, a, b) ::
               Successes(events, a, b) >= c.halfOpenMaxCalls)
            <==> c.halfOpenMaxCalls == 1
  {
    hide After, Possible, Successes, Step;
    forall events: seq<Event>, a: nat, b: nat | ClosingEpisode(c, events, a, b) ensures Successes(events, a, b) == 1 {
      OneSuccessCloses(c, events, a, b);
    }
    OneProbeCloses(c);
  }
}
