/**
  The per-function circuit breaker: a sliding window of outcomes, a breaker that opens when the
  window is full and its error rate reaches the manifest's, and a cool-down. Times are milliseconds;
  rates are exact reals.
 */
module Supervisor {
  import opened Basics

  datatype Recycle = Recycle(maxRequests: int, errorRate: real, errorWindow: int, cooldownMs: int)

  /** `window` holds true for an error; `breakerOpenedAt` is 0 while the breaker is closed. */
  datatype State = State(
    invocations: nat,
    errors: nat,
    window: seq<bool>,
    recycleRecommended: bool,
    breakerOpenedAt: int)

  const FRESH_STATE := State(0, 0, [], false, 0)

  datatype Decision = Admitted | Refused(retryAfter: int)

  datatype Outcome = Outcome(breakerJustTripped: bool, recycleJustRecommended: bool)

  function ErrorsIn(window: seq<bool>): nat {
    if window == [] then 0 else (if window[0] then 1 else 0) + ErrorsIn(window[1..])
  }

  /** `Math.ceil(ms / 1000)` */
  function CeilSeconds(ms: int): int { (ms + 999) / 1000 }

  /** `errs / length >= errorRate`, multiplied out; false for an empty window, whose rate is NaN. */
  predicate RateReached(errs: nat, length: nat, errorRate: real) {
    length > 0 && errs as real >= errorRate * length as real
  }

  predicate Tripping(r: Recycle, window: seq<bool>) {
    |window| >= r.errorWindow && r.errorRate > 0.0 && RateReached(ErrorsIn(window), |window|, r.errorRate)
  }

  function AdmitDecision(r: Recycle, s: State, now: int): Decision {
    if s.breakerOpenedAt > 0 && now - s.breakerOpenedAt < r.cooldownMs then
      Refused(CeilSeconds(r.cooldownMs - (now - s.breakerOpenedAt)))
    else Admitted
  }

  /** An elapsed cool-down half-opens the breaker: the window starts afresh. */
  function AfterAdmit(r: Recycle, s: State, now: int): State {
    if s.breakerOpenedAt > 0 && AdmitDecision(r, s, now) == Admitted then s.(breakerOpenedAt := 0, window := []) else s
  }

  function Recorded(r: Recycle, s: State, error: bool, now: int): Outcome {
    var window := LastN(s.window + [error], r.errorWindow);
    Outcome(
      s.breakerOpenedAt == 0 && Tripping(r, window),
      !s.recycleRecommended && r.maxRequests > 0 && s.invocations + 1 >= r.maxRequests)
  }

  function AfterRecord(r: Recycle, s: State, error: bool, now: int): State {
    var out := Recorded(r, s, error, now);
    State(
      s.invocations + 1,
      s.errors + (if error then 1 else 0),
      LastN(s.window + [error], r.errorWindow),
      s.recycleRecommended || out.recycleJustRecommended,
      if out.breakerJustTripped then now else s.breakerOpenedAt)
  }

  /** There are outcomes, as many as the window takes, and the errors among them reach the rate asked for. */
  ghost predicate ErrorRateReached(r: Recycle, window: seq<bool>) {
    && window != [] && |window| >= r.errorWindow
    && r.errorRate > 0.0 && multiset(window)[true] as real >= r.errorRate * |window| as real
  }

  lemma {:induction false} ErrorsAreCounted(window: seq<bool>)
    ensures ErrorsIn(window) == multiset(window)[true]
  {
    if window != [] {
      ErrorsAreCounted(window[1..]);
      assert window == [window[0]] + window[1..];
    }
  }

  /** A record trips the breaker if and only if it was closed and the new window reaches the error rate. */
  lemma RecordTripsIff(r: Recycle, s: State, error: bool, now: int)
    ensures Recorded(r, s, error, now).breakerJustTripped
       <==> s.breakerOpenedAt == 0 && ErrorRateReached(r, AfterRecord(r, s, error, now).window)
    ensures AfterRecord(r, s, error, now).breakerOpenedAt
         == if Recorded(r, s, error, now).breakerJustTripped then now else s.breakerOpenedAt
  {
    hide ErrorsIn, LastN;
    ErrorsAreCounted(AfterRecord(r, s, error, now).window);
  }

  class FunctionSupervisor {
    var states: map<string, State>
    var manifests: map<string, Recycle>

    constructor ()
      ensures states == map[] && manifests == map[]
    {
      states, manifests := map[], map[];
    }

    function StateOf(name: string): State
      reads this
    {
      if name in states then states[name] else FRESH_STATE
    }

    method SetManifest(name: string, manifest: Recycle)
      modifies this
      ensures states == old(states) && manifests == old(manifests)[name := manifest]
    {
      manifests := manifests[name := manifest];
    }

    method Forget(name: string)
      modifies this
      ensures states == old(states) - {name} && manifests == old(manifests) - {name}
    {
      states := states - {name};
      manifests := manifests - {name};
    }

    method Reset(name: string)
      modifies this
      ensures states == old(states) - {name} && manifests == old(manifests)
    {
      states := states - {name};
    }

    method Admit(name: string, now: int) returns (d: Decision)
      modifies this
      ensures manifests == old(manifests)
      ensures name !in manifests ==> d == Admitted && states == old(states)
      ensures name in manifests ==>
                var s := old(StateOf(name));
                && d == AdmitDecision(manifests[name], s, now)
                && states == old(states)[name := AfterAdmit(manifests[name], s, now)]
    {
      if name !in manifests {
        return Admitted;
      }
      var recycle := manifests[name];
      var s := StateOf(name);
      states := states[name := s];
      if s.breakerOpenedAt > 0 {
        var age := now - s.breakerOpenedAt;
        if age < recycle.cooldownMs {
          return Refused(CeilSeconds(recycle.cooldownMs - age));
        }
        s := s.(breakerOpenedAt := 0);
        s := s.(window := []);
        states := states[name := s];
      }
      d := Admitted;
    }

    method Record(name: string, error: bool, now: int) returns (out: Outcome)
      modifies this
      ensures manifests == old(manifests)
      ensures name !in manifests ==>
                var s := old(StateOf(name));
                && out == Outcome(false, false)
                && states == old(states)[name :=
                     s.(invocations := s.invocations + 1, errors := s.errors + (if error then 1 else 0))]
      ensures name in manifests ==>
                var s := old(StateOf(name));
                && out == Recorded(manifests[name], s, error, now)
                && states == old(states)[name := AfterRecord(manifests[name], s, error, now)]
      ensures name in manifests ==>
                (out.breakerJustTripped <==>
                   old(StateOf(name)).breakerOpenedAt == 0 && ErrorRateReached(manifests[name], states[name].window))
    {
      var s := StateOf(name);
      if name in manifests { RecordTripsIff(manifests[name], s, error, now); }
      if name in manifests {
        hide Tripping, LastN, ErrorRateReached;
        var recycle := manifests[name];
        var window := PushOutcome(s.window, error, recycle.errorWindow);
        var tripped := Judge(recycle, window, s.breakerOpenedAt);
        var invocations := s.invocations + 1;
        var recommended := !s.recycleRecommended && recycle.maxRequests > 0 && invocations >= recycle.maxRequests;
        s := State(
          invocations,
          if error then s.errors + 1 else s.errors,
          window,
          s.recycleRecommended || recommended,
          if tripped then now else s.breakerOpenedAt);
        states := states[name := s];
        return Outcome(tripped, recommended);
      }
      s := s.(invocations := s.invocations + 1);
      if error {
        s := s.(errors := s.errors + 1);
      }
      states := states[name := s];
      out := Outcome(false, false);
    }

    /** `window.push`, then `splice(0, length - win)`, which removes no more than there is. */
    method PushOutcome(window: seq<bool>, error: bool, win: int) returns (w: seq<bool>)
      ensures w == LastN(window + [error], win)
    {
      w := window + [error];
      if |w| > win {
        var n := |w| - win;
        w := if n >= |w| then [] else w[n..];
      }
    }

    /** Whether a closed breaker opens on this window. */
    method Judge(recycle: Recycle, window: seq<bool>, breakerOpenedAt: int) returns (trip: bool)
      ensures trip <==> breakerOpenedAt == 0 && Tripping(recycle, window)
    {
      trip := false;
      if breakerOpenedAt == 0 && |window| >= recycle.errorWindow && recycle.errorRate > 0.0 {
        var errs := CountErrors(window);
        trip := RateReached(errs, |window|, recycle.errorRate);
      }
    }

    /** `window.reduce((a, b) => a + b, 0)` */
    method CountErrors(window: seq<bool>) returns (n: nat)
      ensures n == ErrorsIn(window)
    {
      n := 0;
      assert window[0..] == window;
      for i := 0 to |window|
        invariant ErrorsIn(window) == n + ErrorsIn(window[i..])
      {
        assert window[i..][1..] == window[i + 1..];
        if window[i] { n := n + 1; }
      }
    }
  }

  // ---------------------------------------------------------------------------
  // Runs of one function under a fixed manifest
  // ---------------------------------------------------------------------------

  datatype Event = Admit(now: int) | Record(error: bool, now: int)

  function Step(r: Recycle, s: State, e: Event): State {
    match e
    case Admit(now) => AfterAdmit(r, s, now)
    case Record(error, now) => AfterRecord(r, s, error, now)
  }

  function Run(r: Recycle, es: seq<Event>): State {
    if es == [] then FRESH_STATE else Step(r, Run(r, es[..|es| - 1]), es[|es| - 1])
  }

  /** The state event `i` meets. */
  function Before(r: Recycle, es: seq<Event>, i: nat): State
    requires i <= |es|
  {
    Run(r, es[..i])
  }

  lemma BeforeNext(r: Recycle, es: seq<Event>, i: nat)
    requires i < |es|
    ensures Before(r, es, i + 1) == Step(r, Before(r, es, i), es[i])
  {
    assert es[..i + 1][..i] == es[..i];
  }

  /** Times are positive and never go back. */
  ghost predicate Clock(es: seq<Event>) {
    && (forall i | 0 <= i < |es| :: es[i].now > 0)
    && (forall i, j | 0 <= i < j < |es| :: es[i].now <= es[j].now)
  }

  predicate HalfOpens(r: Recycle, s: State, e: Event) {
    e.Admit? && s.breakerOpenedAt > 0 && AdmitDecision(r, s, e.now) == Admitted
  }

  predicate Trips(r: Recycle, es: seq<Event>, i: nat)
    requires i < |es|
  {
    es[i].Record? && Recorded(r, Before(r, es, i), es[i].error, es[i].now).breakerJustTripped
  }

  // ---------------------------------------------------------------------------
  // The window
  // ---------------------------------------------------------------------------

  /** The outcomes recorded since the breaker last half-opened. */
  function OutcomesSince(r: Recycle, es: seq<Event>): seq<bool> {
    if es == [] then []
    else
      var front, e := es[..|es| - 1], es[|es| - 1];
      if e.Record? then OutcomesSince(r, front) + [e.error]
      else if HalfOpens(r, Run(r, front), e) then []
      else OutcomesSince(r, front)
  }

  lemma LastNOfLastN(xs: seq<bool>, x: bool, n: int)
    ensures LastN(LastN(xs, n) + [x], n) == LastN(xs + [x], n)
  {
  }

  /** In every run the window is the last `errorWindow` outcomes since the breaker last half-opened. */
  lemma {:induction false} WindowIsLastOutcomes(r: Recycle, es: seq<Event>)
    ensures Run(r, es).window == LastN(OutcomesSince(r, es), r.errorWindow)
  {
    if es != [] {
      var front, e := es[..|es| - 1], es[|es| - 1];
      WindowIsLastOutcomes(r, front);
      if e.Record? { LastNOfLastN(OutcomesSince(r, front), e.error, r.errorWindow); }
    }
  }

  // ---------------------------------------------------------------------------
  // How often it trips
  // ---------------------------------------------------------------------------

  function RecordCount(es: seq<Event>, n: nat): nat
    requires n <= |es|
  {
    if n == 0 then 0 else RecordCount(es, n - 1) + (if es[n - 1].Record? then 1 else 0)
  }

  function TripCount(r: Recycle, es: seq<Event>, n: nat): nat
    requires n <= |es|
  {
    if n == 0 then 0 else TripCount(r, es, n - 1) + (if Trips(r, es, n - 1) then 1 else 0)
  }

  /** Outcomes that can still count towards the next trip. */
  function Pending(s: State): nat {
    if s.breakerOpenedAt == 0 then |s.window| else 0
  }

  lemma TripStep(r: Recycle, s: State, e: Event)
    requires e.now > 0
    ensures var tripped := e.Record? && Recorded(r, s, e.error, e.now).breakerJustTripped;
            && (tripped ==> Pending(Step(r, s, e)) == 0 && r.errorWindow <= Pending(s) + 1)
            && (!tripped ==> Pending(Step(r, s, e)) <= Pending(s) + (if e.Record? then 1 else 0))
  {
  }

  lemma NothingPending(r: Recycle, es: seq<Event>)
    ensures Pending(Before(r, es, 0)) == 0
  {
    assert es[..0] == [];
  }

  lemma {:induction false} TripsCost(r: Recycle, es: seq<Event>, n: nat)
    requires Clock(es) && n <= |es|
    ensures TripCount(r, es, n) * r.errorWindow + Pending(Before(r, es, n)) <= RecordCount(es, n)
  {
    hide Step, Recorded, Pending;
    if n == 0 {
      NothingPending(r, es);
    } else {
      TripsCost(r, es, n - 1);
      BeforeNext(r, es, n - 1);
      TripStep(r, Before(r, es, n - 1), es[n - 1]);
    }
  }

  /** Every trip is paid for by a full window of records of its own. */
  lemma TripsBounded(r: Recycle, es: seq<Event>)
    requires Clock(es)
    ensures TripCount(r, es, |es|) * r.errorWindow <= RecordCount(es, |es|)
  {
    TripsCost(r, es, |es|);
  }

  // ---------------------------------------------------------------------------
  // The cool-down
  // ---------------------------------------------------------------------------

  /** The breaker half-opened before `j`, at least a cool-down after event `i`. */
  ghost predicate Cooled(r: Recycle, es: seq<Event>, i: nat, j: nat)
    requires i < j <= |es|
  {
    exists k :: i < k < j && HalfOpens(r, Before(r, es, k), es[k]) && es[k].now - es[i].now >= r.cooldownMs
  }

  lemma OpenStep(r: Recycle, s: State, e: Event)
    requires s.breakerOpenedAt > 0
    ensures Step(r, s, e).breakerOpenedAt == s.breakerOpenedAt || HalfOpens(r, s, e)
    ensures HalfOpens(r, s, e) ==> e.now - s.breakerOpenedAt >= r.cooldownMs
  {
  }

  lemma TripOpens(r: Recycle, es: seq<Event>, i: nat)
    requires i < |es| && Trips(r, es, i)
    ensures Before(r, es, i + 1).breakerOpenedAt == es[i].now
  {
    BeforeNext(r, es, i);
  }

  /** After a trip at `i`, the breaker is open since then until a half-open at least a cool-down later. */
  lemma {:induction false} OpenSince(r: Recycle, es: seq<Event>, i: nat, j: nat)
    requires Clock(es) && i < j <= |es| && Trips(r, es, i)
    ensures Before(r, es, j).breakerOpenedAt == es[i].now || Cooled(r, es, i, j)
    decreases j
  {
    hide Before, Step, HalfOpens, Trips;
    if j == i + 1 {
      TripOpens(r, es, i);
    } else {
      OpenSince(r, es, i, j - 1);
      BeforeNext(r, es, j - 1);
      if Before(r, es, j - 1).breakerOpenedAt == es[i].now {
        OpenStep(r, Before(r, es, j - 1), es[j - 1]);
      }
    }
  }

  /** Any two trips are at least a cool-down apart. */
  lemma TripsApart(r: Recycle, es: seq<Event>, i: nat, j: nat)
    requires Clock(es) && i < j < |es| && Trips(r, es, i) && Trips(r, es, j)
    ensures es[j].now - es[i].now >= r.cooldownMs
  {
    OpenSince(r, es, i, j);
  }

  /** During a cool-down every admit is refused, with a Retry-After that reaches its end. */
  lemma CoolDownRefuses(r: Recycle, es: seq<Event>, i: nat, j: nat)
    requires Clock(es) && i < j < |es| && Trips(r, es, i)
    requires es[j].Admit? && es[j].now - es[i].now < r.cooldownMs
    ensures var d := AdmitDecision(r, Before(r, es, j), es[j].now);
            && d.Refused?
            && es[j].now + d.retryAfter * 1000 >= es[i].now + r.cooldownMs
            && es[j].now + d.retryAfter * 1000 < es[i].now + r.cooldownMs + 1000
            && d.retryAfter >= 1
  {
    OpenSince(r, es, i, j);
  }

  /** While nothing trips, a breaker that was open since `t` is still open since `t` or closed. */
  lemma {:induction false} OpenOrClosed(r: Recycle, es: seq<Event>, i: nat, j: nat)
    requires Clock(es) && i <= j <= |es| && (forall k | i <= k < j :: !Trips(r, es, k))
    ensures Before(r, es, j).breakerOpenedAt in {0, Before(r, es, i).breakerOpenedAt}
    decreases j
  {
    if i < j {
      OpenOrClosed(r, es, i, j - 1);
      BeforeNext(r, es, j - 1);
      assert !Trips(r, es, j - 1);
    }
  }

  /** As long as nothing has tripped, every request is admitted. */
  lemma NeverTrippedAdmits(r: Recycle, es: seq<Event>, i: nat, now: int)
    requires Clock(es) && i <= |es| && forall k | 0 <= k < i :: !Trips(r, es, k)
    ensures AdmitDecision(r, Before(r, es, i), now) == Admitted
  {
    OpenOrClosed(r, es, 0, i);
    assert es[..0] == [];
  }

  /** A refused caller that waits the advertised seconds is admitted, unless the breaker tripped again. */
  lemma RetryAdmitted(r: Recycle, es: seq<Event>, i: nat, j: nat)
    requires Clock(es) && i < j < |es| && es[i].Admit? && es[j].Admit?
    requires AdmitDecision(r, Before(r, es, i), es[i].now).Refused?
    requires forall k | i <= k < j :: !Trips(r, es, k)
    requires es[j].now >= es[i].now + AdmitDecision(r, Before(r, es, i), es[i].now).retryAfter * 1000
    ensures AdmitDecision(r, Before(r, es, j), es[j].now) == Admitted
  {
    OpenOrClosed(r, es, i, j);
  }

  /**
    A trip opens the breaker for the cool-down if and only if the clock is positive: zero doubles as
    "closed", so that a breaker that trips at time zero or before refuses nobody.
   */
  lemma TripRefusesIff(r: Recycle, s: State, error: bool, now: int, later: int)
    requires Recorded(r, s, error, now).breakerJustTripped
    ensures AdmitDecision(r, AfterRecord(r, s, error, now), later).Refused? <==> now > 0 && later - now < r.cooldownMs
  {
  }

  // ---------------------------------------------------------------------------
  // What trips the breaker
  // ---------------------------------------------------------------------------

  /** A window without errors trips nothing. */
  lemma CleanWindowNeverTrips(r: Recycle, es: seq<Event>, i: nat)
    requires i < |es| && true !in Before(r, es, i + 1).window
    ensures !Trips(r, es, i)
  {
    hide Recorded, AfterRecord;
    BeforeNext(r, es, i);
    if es[i].Record? {
      var s := Before(r, es, i);
      RecordTripsIff(r, s, es[i].error, es[i].now);
      NoErrors(r, AfterRecord(r, s, es[i].error, es[i].now).window);
    }
  }

  lemma NoErrors(r: Recycle, window: seq<bool>)
    requires true !in window
    ensures !ErrorRateReached(r, window)
  {
    assert true !in multiset(window);
    if r.errorRate > 0.0 && window != [] { assert r.errorRate * |window| as real > 0.0; }
  }

  /** The newest `n` outcomes in the window are errors; all of them, where there are fewer. */
  ghost predicate EndsInErrors(window: seq<bool>, n: int) {
    |window| >= n && forall k | 0 <= k < |window| && k >= |window| - n :: window[k]
  }

  lemma PushError(window: seq<bool>, size: int, n: nat)
    requires size > 0 && EndsInErrors(window, if n < size then n else size)
    ensures EndsInErrors(LastN(window + [true], size), if n + 1 < size then n + 1 else size)
  {
  }

  lemma AllErrorsTrip(r: Recycle, window: seq<bool>)
    requires 0.0 < r.errorRate <= 1.0 && |window| == r.errorWindow > 0 && EndsInErrors(window, r.errorWindow)
    ensures ErrorRateReached(r, window)
  {
    ErrorsAreAll(window);
    assert r.errorRate * |window| as real <= 1.0 * |window| as real;
  }

  lemma {:induction false} ErrorsAreAll(window: seq<bool>)
    requires forall k | 0 <= k < |window| :: window[k]
    ensures multiset(window)[true] == |window|
  {
    if window != [] {
      ErrorsAreAll(window[1..]);
      assert window == [window[0]] + window[1..];
    }
  }

  /** While nothing trips, a closed breaker stays closed, and errors recorded since fill the window. */
  lemma {:induction false} ErrorsFill(r: Recycle, es: seq<Event>, i: nat, j: nat)
    requires i <= j <= |es| && Before(r, es, i).breakerOpenedAt == 0 && r.errorWindow > 0
    requires forall k | i <= k < j :: (es[k].Record? ==> es[k].error) && !Trips(r, es, k)
    ensures var s, n := Before(r, es, j), RecordCount(es, j) - RecordCount(es, i);
            && s.breakerOpenedAt == 0 && n >= 0
            && EndsInErrors(s.window, if n < r.errorWindow then n else r.errorWindow)
    decreases j
  {
    hide LastN, Recorded;
    if i < j {
      ErrorsFill(r, es, i, j - 1);
      BeforeNext(r, es, j - 1);
      var s, e := Before(r, es, j - 1), es[j - 1];
      hide Before;
      if e.Record? {
        assert !Trips(r, es, j - 1);
        PushError(s.window, r.errorWindow, RecordCount(es, j - 1) - RecordCount(es, i));
      }
    }
  }

  /**
    With an error rate of at most 1, a closed breaker trips before as many errors as the window takes
    are recorded in a row, whatever requests are admitted in between.
   */
  lemma ErrorsInARowTrip(r: Recycle, es: seq<Event>, i: nat, j: nat)
    requires i < j < |es| && Before(r, es, i).breakerOpenedAt == 0
    requires 0.0 < r.errorRate <= 1.0 && r.errorWindow > 0
    requires (forall k | i <= k <= j && es[k].Record? :: es[k].error) && es[j].Record?
    requires RecordCount(es, j + 1) - RecordCount(es, i) >= r.errorWindow
    ensures exists k | i <= k <= j :: Trips(r, es, k)
  {
    hide Recorded, AfterRecord, LastN;
    if forall k | i <= k < j :: !Trips(r, es, k) {
      ErrorsFill(r, es, i, j);
      LastErrorTrips(r, Before(r, es, j), RecordCount(es, j) - RecordCount(es, i), es[j].now);
      assert Trips(r, es, j);
    }
  }

  lemma LastErrorTrips(r: Recycle, s: State, n: nat, now: int)
    requires s.breakerOpenedAt == 0 && 0.0 < r.errorRate <= 1.0 && n + 1 >= r.errorWindow > 0
    requires EndsInErrors(s.window, if n < r.errorWindow then n else r.errorWindow)
    ensures Recorded(r, s, true, now).breakerJustTripped
  {
    var w := AfterRecord(r, s, true, now).window;
    PushError(s.window, r.errorWindow, n);
    assert w == LastN(s.window + [true], r.errorWindow) && |w| == r.errorWindow;
    AllErrorsTrip(r, w);
    RecordTripsIff(r, s, true, now);
  }

  // ---------------------------------------------------------------------------
  // Counters and recycling
  // ---------------------------------------------------------------------------

  function ErrorCount(es: seq<Event>, n: nat): nat
    requires n <= |es|
  {
    if n == 0 then 0 else ErrorCount(es, n - 1) + (if es[n - 1].Record? && es[n - 1].error then 1 else 0)
  }

  predicate Recommends(r: Recycle, es: seq<Event>, i: nat)
    requires i < |es|
  {
    es[i].Record? && Recorded(r, Before(r, es, i), es[i].error, es[i].now).recycleJustRecommended
  }

  /** The counters count, and recycling has been recommended once enough requests were recorded. */
  lemma {:induction false} CountersCount(r: Recycle, es: seq<Event>, n: nat)
    requires n <= |es|
    ensures var s := Before(r, es, n);
            && s.invocations == RecordCount(es, n) && s.errors == ErrorCount(es, n)
            && (s.recycleRecommended <==> 0 < r.maxRequests <= RecordCount(es, n))
  {
    hide Tripping, LastN;
    if n == 0 {
      assert es[..0] == [];
    } else {
      CountersCount(r, es, n - 1);
      BeforeNext(r, es, n - 1);
    }
  }

  /** Recycling is recommended exactly once: by the record that makes `maxRequests` of them. */
  lemma RecommendsIff(r: Recycle, es: seq<Event>, i: nat)
    requires i < |es|
    ensures Recommends(r, es, i) <==> es[i].Record? && r.maxRequests > 0 && RecordCount(es, i + 1) == r.maxRequests
  {
    hide Tripping, LastN;
    CountersCount(r, es, i);
  }
}
