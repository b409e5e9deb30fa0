/** The circuit breaker (src/reliability.rs): as sequential calls, and as interleaved atomic steps. Times are
    milliseconds since start-up, the recovery timeout is in nanoseconds. */
module Breaker {
  import opened Bytes

  datatype CircuitState = Closed | Open | HalfOpen

  datatype Config = Config(threshold: nat, timeoutNs: nat)

  /** `elapsed > recovery_timeout`, on a clock that does not run backwards. */
  predicate Recovered(c: Config, last: nat, now: nat) {
    (now - last) * 1_000_000 > c.timeoutNs
  }

  // ---- Specification: what a breaker owes its callers, in terms of what happened so far ----

  datatype Event = Executed(start: nat, end: nat, ok: bool) | Rejected(at: nat)

  /** Executed failures since the last success. */
  function Failures(h: seq<Event>): nat {
    if h == [] then 0
    else
      var before := Failures(h[..|h| - 1]);
      match h[|h| - 1]
      case Executed(_, _, ok) => if ok then 0 else before + 1
      case Rejected(_) => before
  }

  /** When the last failure was recorded. */
  function LastFailure(h: seq<Event>): nat {
    if h == [] then 0
    else
      match h[|h| - 1]
      case Executed(_, end, ok) => if ok then LastFailure(h[..|h| - 1]) else end
      case Rejected(_) => LastFailure(h[..|h| - 1])
  }

  predicate Tripped(c: Config, h: seq<Event>) {
    Failures(h) >= if c.threshold >= 1 then c.threshold else 1
  }

  predicate Executes(c: Config, h: seq<Event>, now: nat) {
    Tripped(c, h) ==> Recovered(c, LastFailure(h), now)
  }

  function Clock(h: seq<Event>): nat {
    if h == [] then 0
    else
      match h[|h| - 1]
      case Executed(_, end, _) => end
      case Rejected(at) => at
  }

  /** Time moves forward, and calls run exactly when the history before them says so. */
  ghost predicate Legal(c: Config, h: seq<Event>) {
    h == [] ||
    (var before := h[..|h| - 1];
     Legal(c, before) &&
     match h[|h| - 1]
     case Executed(start, end, _) => Clock(before) <= start <= end && Executes(c, before, start)
     case Rejected(at) => Clock(before) <= at && !Executes(c, before, at))
  }

  lemma {:induction false} LastFailureInPast(c: Config, h: seq<Event>)
    requires Legal(c, h)
    ensures LastFailure(h) <= Clock(h)
  {
    if h != [] {
      LastFailureInPast(c, h[..|h| - 1]);
    }
  }

  function Executions(h: seq<Event>): nat {
    if h == [] then 0 else Executions(h[..|h| - 1]) + (if h[|h| - 1].Executed? then 1 else 0)
  }

  ghost predicate Outage(h: seq<Event>) {
    forall i :: 0 <= i < |h| && h[i].Executed? ==> !h[i].ok
  }

  lemma OneMore(n: int, t: int)
    ensures (n + 1) * t == n * t + t
    ensures 0 * t == 0
  {
  }

  /** During an outage, past the first max(1, threshold) calls, one recovery timeout passes for every call that is let
      through: the load on a dead backend is bounded by the length of the outage. */
  lemma {:induction false} OutageLoad(c: Config, h: seq<Event>)
    requires Legal(c, h) && Outage(h)
    ensures Failures(h) == Executions(h)
    ensures Tripped(c, h) ==>
      (Executions(h) - (if c.threshold >= 1 then c.threshold else 1)) * c.timeoutNs <= LastFailure(h) * 1_000_000
  {
    if h != [] {
      var before := h[..|h| - 1];
      OutageLoad(c, before);
      var k := if c.threshold >= 1 then c.threshold else 1;
      match h[|h| - 1] {
        case Executed(start, end, _) =>
          assert !h[|h| - 1].ok;
          OneMore(Executions(before) - k, c.timeoutNs);
          LastFailureInPast(c, before);
        case Rejected(_) =>
      }
    }
  }

  // ---- Sequential calls ----

  datatype Shared = Shared(state: CircuitState, failureCount: nat, lastFailureTime: nat, halfOpenCalls: nat)

  const FRESH := Shared(Closed, 0, 0, 0)

  datatype CallResult = Ok | OpenError | InnerError

  function OnSuccess(s: Shared): Shared {
    s.(failureCount := 0, state := Closed)
  }

  function OnFailure(c: Config, s: Shared, now: nat): Shared {
    var count := s.failureCount + 1;
    s.(failureCount := count, lastFailureTime := now, state := if count >= c.threshold then Open else s.state)
  }

  /** A call that nothing interferes with. Its future, if it runs, ends at `end`. */
  function CallOnce(c: Config, s: Shared, start: nat, end: nat, succeeds: bool): (Shared, CallResult) {
    if s.state == Open && !Recovered(c, s.lastFailureTime, start) then (s, OpenError)
    else if s.state == HalfOpen && s.halfOpenCalls > 0 then (s, OpenError)
    else
      var s' := if s.state == Open then s.(state := HalfOpen) else s;
      if succeeds then (OnSuccess(s'), Ok) else (OnFailure(c, s', end), InnerError)
  }

  class CircuitBreaker {
    const config: Config
    var state: CircuitState
    var failureCount: nat
    var lastFailureTime: nat
    var halfOpenCalls: nat

    function View(): Shared
      reads this
    {
      Shared(state, failureCount, lastFailureTime, halfOpenCalls)
    }

    constructor (threshold: nat, timeoutNs: nat)
      ensures View() == FRESH && config == Config(threshold, timeoutNs)
    {
      config := Config(threshold, timeoutNs);
      state, failureCount, lastFailureTime, halfOpenCalls := Closed, 0, 0, 0;
    }

    method Call(start: nat, end: nat, succeeds: bool) returns (r: CallResult)
      requires lastFailureTime <= start <= end
      modifies this
      ensures (View(), r) == CallOnce(config, old(View()), start, end, succeeds)
    {
      var seen := state;
      if seen == Open {
        if (start - lastFailureTime) * 1_000_000 > config.timeoutNs {
          state := HalfOpen;
        } else {
          return OpenError;
        }
      }
      if seen == HalfOpen {
        halfOpenCalls := halfOpenCalls + 1;
        if halfOpenCalls > 1 {
          halfOpenCalls := halfOpenCalls - 1;
          return OpenError;
        }
      }
      if succeeds {
        failureCount := 0;
        state := Closed;
        r := Ok;
      } else {
        failureCount := failureCount + 1;
        lastFailureTime := end;
        if failureCount >= config.threshold {
          state := Open;
        }
        r := InnerError;
      }
      if seen == HalfOpen {
        halfOpenCalls := halfOpenCalls - 1;
      }
    }
  }

  datatype Attempt = Attempt(start: nat, end: nat, succeeds: bool)

  /** Calls one after the other, with the history they leave and what each caller is told. */
  function Play(c: Config, calls: seq<Attempt>): (Shared, seq<Event>, seq<CallResult>) {
    if calls == [] then (FRESH, [], [])
    else
      var (s, h, told) := Play(c, calls[..|calls| - 1]);
      var a := calls[|calls| - 1];
      var (s', r) := CallOnce(c, s, a.start, a.end, a.succeeds);
      (s', h + [if r == OpenError then Rejected(a.start) else Executed(a.start, a.end, a.succeeds)], told + [r])
  }

  predicate InOrder(calls: seq<Attempt>) {
    && (forall i :: 0 <= i < |calls| ==> calls[i].start <= calls[i].end)
    && (forall i :: 1 <= i < |calls| ==> calls[i - 1].end <= calls[i].start)
  }

  /** Between calls: closed or open, open exactly when the history has tripped the breaker, no probe left over. */
  ghost predicate Tracks(c: Config, s: Shared, h: seq<Event>) {
    s == Shared(if Tripped(c, h) then Open else Closed, Failures(h), LastFailure(h), 0)
  }

  lemma CallTracks(c: Config, s: Shared, h: seq<Event>, a: Attempt)
    requires Legal(c, h) && Tracks(c, s, h) && Clock(h) <= a.start <= a.end
    ensures var (s', r) := CallOnce(c, s, a.start, a.end, a.succeeds);
      var h' := h + [if r == OpenError then Rejected(a.start) else Executed(a.start, a.end, a.succeeds)];
      Legal(c, h') && Tracks(c, s', h') && (r == OpenError <==> !Executes(c, h, a.start))
  {
    hide Recovered;
    var (s', r) := CallOnce(c, s, a.start, a.end, a.succeeds);
    var h' := h + [if r == OpenError then Rejected(a.start) else Executed(a.start, a.end, a.succeeds)];
    assert h'[..|h'| - 1] == h;
  }

  /** Over every sequence of calls: the breaker is open exactly when max(1, threshold) failures have run since the last
      success, and a call runs exactly when the breaker is closed or more than the recovery timeout has passed
      since the last recorded failure. */
  lemma {:induction false} SequentialRuns(c: Config, calls: seq<Attempt>)
    requires InOrder(calls)
    ensures var (s, h, _) := Play(c, calls); Legal(c, h) && Tracks(c, s, h)
    ensures var (s, h, told) := Play(c, calls);
      |h| == |told| == |calls| && Clock(h) <= (if calls == [] then 0 else calls[|calls| - 1].end)
  {
    if calls != [] {
      var k := |calls| - 1;
      SequentialRuns(c, calls[..k]);
      var (s, h, _) := Play(c, calls[..k]);
      CallTracks(c, s, h, calls[k]);
    }
  }

  /** What a call is told after a history, and what becomes of it. */
  ghost predicate Told(c: Config, before: seq<Event>, a: Attempt, e: Event, r: CallResult) {
    var refused := Failures(before) >= 1 && Failures(before) >= c.threshold
      && (a.start - LastFailure(before)) * 1_000_000 <= c.timeoutNs;
    && LastFailure(before) <= a.start
    && e == (if refused then Rejected(a.start) else Executed(a.start, a.end, a.succeeds))
    && (r == OpenError <==> refused)
    && (r == Ok <==> !refused && a.succeeds)
    && (r == InnerError <==> !refused && !a.succeeds)
  }

  lemma LastTold(c: Config, s: Shared, h: seq<Event>, a: Attempt)
    requires Legal(c, h) && Tracks(c, s, h) && Clock(h) <= a.start <= a.end
    ensures var r := CallOnce(c, s, a.start, a.end, a.succeeds).1;
      Told(c, h, a, if r == OpenError then Rejected(a.start) else Executed(a.start, a.end, a.succeeds), r)
  {
    LastFailureInPast(c, h);
    CallTracks(c, s, h, a);
    hide Failures, LastFailure, Legal, Clock;
  }

  /** What call k of a run is told, in terms of what ran before it: an open error exactly when max(1, threshold)
      failures have run since the last success and no more than the recovery timeout has passed since the last of
      them; otherwise the outcome of its own future. */
  lemma {:induction false} CallerTold(c: Config, calls: seq<Attempt>, k: nat)
    requires InOrder(calls) && k < |calls|
    ensures var (_, h, told) := Play(c, calls);
      |h| == |told| == |calls| && Told(c, h[..k], calls[k], h[k], told[k])
  {
    hide Failures, LastFailure, Legal, Clock, Told, CallOnce;
    var n := |calls| - 1;
    SequentialRuns(c, calls);
    SequentialRuns(c, calls[..n]);
    var (s, h, told) := Play(c, calls);
    var (s0, h0, told0) := Play(c, calls[..n]);
    assert h0 == h[..n];
    if k < n {
      CallerTold(c, calls[..n], k);
      assert h0[..k] == h[..k];
    } else {
      LastTold(c, s0, h0, calls[n]);
    }
  }

  // ---- Interleaved steps ----

  /** Where a caller stands; `seen` is the state it loaded, which it keeps to the end of its call. */
  datatype Caller =
    | Idle
    | Loaded(seen: CircuitState)
    | Checking(last: nat)
    | Promoting
    | Rejecting
    | Running(seen: CircuitState)
    | Succeeded(seen: CircuitState)
    | ResetDone(seen: CircuitState)
    | Failed(seen: CircuitState)
    | Counted(seen: CircuitState, count: nat)
    | Stamped(seen: CircuitState, count: nat)
    | Releasing(ok: bool)

  /** The shared fields, where each caller stands, and two logs of (caller, outcome) pairs: the futures that ended and
      the results that callers were given. */
  datatype System =
    System(shared: Shared, callers: seq<Caller>, ended: seq<(nat, bool)>, told: seq<(nat, CallResult)>)

  /** Caller i takes its next atomic action; `now` is the clock if it reads it, `ok` the outcome of its future. */
  datatype Step = Step(i: nat, now: nat, ok: bool)

  function Outcome(ok: bool): CallResult {
    if ok then Ok else InnerError
  }

  /** The end of a call, or the release of the slot before it. */
  function Done(s: Shared, seen: CircuitState, ok: bool): (Shared, Caller, seq<CallResult>) {
    if seen == HalfOpen then (s, Releasing(ok), []) else (s, Idle, [Outcome(ok)])
  }

  /** One atomic action; the last component is the result the call returns, if it returns. */
  function Act(c: Config, s: Shared, p: Caller, now: nat, ok: bool): (Shared, Caller, seq<CallResult>) {
    match p
    case Idle => (s, Loaded(s.state), [])
    case Loaded(seen) =>
      (match seen
       case Closed => (s, Running(Closed), [])
       case Open => (s, Checking(s.lastFailureTime), [])
       case HalfOpen =>
         var t := s.(halfOpenCalls := s.halfOpenCalls + 1);
         (t, if s.halfOpenCalls > 0 then Rejecting else Running(HalfOpen), []))
    case Checking(last) => if Recovered(c, last, now) then (s, Promoting, []) else (s, Idle, [OpenError])
    case Promoting => (s.(state := HalfOpen), Running(Open), [])
    case Rejecting => (s.(halfOpenCalls := Minus1(s.halfOpenCalls)), Idle, [OpenError])
    case Running(seen) => (s, if ok then Succeeded(seen) else Failed(seen), [])
    case Succeeded(seen) => (s.(failureCount := 0), ResetDone(seen), [])
    case ResetDone(seen) => Done(s.(state := Closed), seen, true)
    case Failed(seen) => (s.(failureCount := s.failureCount + 1), Counted(seen, s.failureCount + 1), [])
    case Counted(seen, count) => (s.(lastFailureTime := now), Stamped(seen, count), [])
    case Stamped(seen, count) => Done(if count >= c.threshold then s.(state := Open) else s, seen, false)
    case Releasing(ok) => (s.(halfOpenCalls := Minus1(s.halfOpenCalls)), Idle, [Outcome(ok)])
  }

  /** Decrement of an unsigned word. */
  function Minus1(n: nat): nat {
    if n == 0 then 0xFFFF_FFFF else n - 1
  }

  function Tag<T>(i: nat, xs: seq<T>): seq<(nat, T)> {
    seq(|xs|, k requires 0 <= k < |xs| => (i, xs[k]))
  }

  function Next(c: Config, y: System, a: Step): System {
    if a.i < |y.callers| then
      var (s, p, r) := Act(c, y.shared, y.callers[a.i], a.now, a.ok);
      System(s, y.callers[a.i := p], y.ended + (if y.callers[a.i].Running? then [(a.i, a.ok)] else []),
             y.told + Tag(a.i, r))
    else y
  }

  function Run(c: Config, y: System, steps: seq<Step>): System {
    if steps == [] then y else Next(c, Run(c, y, steps[..|steps| - 1]), steps[|steps| - 1])
  }

  ghost predicate Initial(y: System) {
    y.shared.halfOpenCalls == 0 && forall i :: 0 <= i < |y.callers| ==> y.callers[i] == Idle
  }

  /** Callers that loaded HalfOpen, were let through and have not yet released the slot. */
  function Probing1(p: Caller): nat {
    match p
    case Running(seen) => if seen == HalfOpen then 1 else 0
    case Succeeded(seen) => if seen == HalfOpen then 1 else 0
    case ResetDone(seen) => if seen == HalfOpen then 1 else 0
    case Failed(seen) => if seen == HalfOpen then 1 else 0
    case Counted(seen, _) => if seen == HalfOpen then 1 else 0
    case Stamped(seen, _) => if seen == HalfOpen then 1 else 0
    case Releasing(_) => 1
    case _ => 0
  }

  function Rejecting1(p: Caller): nat {
    if p.Rejecting? then 1 else 0
  }

  ghost predicate Limited(y: System) {
    && y.shared.halfOpenCalls == Total(y.callers, Probing1) + Total(y.callers, Rejecting1)
    && Total(y.callers, Probing1) <= 1
  }

  /** One action moves the count by what it does to the caller, and lets a caller through only at zero. */
  lemma ActWeight(c: Config, s: Shared, p: Caller, now: nat, ok: bool)
    requires s.halfOpenCalls >= Probing1(p) + Rejecting1(p)
    ensures var (s', p', _) := Act(c, s, p, now, ok);
      && s'.halfOpenCalls + Probing1(p) + Rejecting1(p) == s.halfOpenCalls + Probing1(p') + Rejecting1(p')
      && (Probing1(p') <= Probing1(p) || s.halfOpenCalls == 0) && Probing1(p') <= 1
  {
  }

  lemma NextLimited(c: Config, y: System, a: Step)
    requires Limited(y)
    ensures Limited(Next(c, y, a))
  {
    hide Act, Probing1, Rejecting1;
    if a.i < |y.callers| {
      var p := Act(c, y.shared, y.callers[a.i], a.now, a.ok).1;
      TotalUpdate(y.callers, a.i, y.callers[a.i], Probing1);
      TotalUpdate(y.callers, a.i, y.callers[a.i], Rejecting1);
      ActWeight(c, y.shared, y.callers[a.i], a.now, a.ok);
      TotalUpdate(y.callers, a.i, p, Probing1);
      TotalUpdate(y.callers, a.i, p, Rejecting1);
    }
  }

  /** In every interleaving, the half-open count is the number of callers between their increment and their decrement
      (so it never underflows and is zero when there is none), and at most one caller that loaded HalfOpen has been
      let through and not yet released the slot. */
  lemma {:induction false} HalfOpenLimiter(c: Config, y: System, steps: seq<Step>)
    requires Initial(y)
    ensures Limited(Run(c, y, steps))
  {
    if steps == [] {
      TotalZero(y.callers, Probing1);
      TotalZero(y.callers, Rejecting1);
    } else {
      HalfOpenLimiter(c, y, steps[..|steps| - 1]);
      NextLimited(c, Run(c, y, steps[..|steps| - 1]), steps[|steps| - 1]);
    }
  }

  lemma {:induction false} TwoWeigh(callers: seq<Caller>, i: nat, j: nat)
    requires i < j < |callers| && Probing1(callers[i]) == 1 && Probing1(callers[j]) == 1
    ensures Total(callers, Probing1) >= 2
  {
    var k := |callers| - 1;
    if j < k {
      TwoWeigh(callers[..k], i, j);
    } else {
      TotalUpdate(callers[..k], i, callers[i], Probing1);
    }
  }

  /** Two futures of callers that loaded HalfOpen never run at once. */
  lemma OneProbeRuns(c: Config, y: System, steps: seq<Step>, i: nat, j: nat)
    requires Initial(y) && i < j < |Run(c, y, steps).callers|
    ensures var z := Run(c, y, steps); !(z.callers[i] == Running(HalfOpen) && z.callers[j] == Running(HalfOpen))
  {
    HalfOpenLimiter(c, y, steps);
    var z := Run(c, y, steps);
    if z.callers[i] == Running(HalfOpen) && z.callers[j] == Running(HalfOpen) {
      TwoWeigh(z.callers, i, j);
    }
  }

  // ---- Callers that loaded Open are not limited ----

  /** The first n callers load the state. */
  function Loads(n: nat): seq<Step> {
    if n == 0 then [] else Loads(n - 1) + [Step(n - 1, 0, false)]
  }

  /** The first n callers, in turn, find the timeout over and go ahead. */
  function Promotions(n: nat, now: nat): seq<Step> {
    if n == 0 then []
    else Promotions(n - 1, now) + [Step(n - 1, now, false), Step(n - 1, now, false), Step(n - 1, now, false)]
  }

  lemma {:induction false} RunConcat(c: Config, y: System, a: seq<Step>, b: seq<Step>)
    ensures Run(c, y, a + b) == Run(c, Run(c, y, a), b)
  {
    if b == [] {
      assert a + b == a;
    } else {
      RunConcat(c, y, a, b[..|b| - 1]);
      assert (a + b)[..|a + b| - 1] == a + b[..|b| - 1];
    }
  }

  lemma {:induction false} LoadsRun(c: Config, y: System, n: nat)
    requires Initial(y) && y.shared.state == Open && n <= |y.callers|
    ensures var z := Run(c, y, Loads(n));
      && z.shared == y.shared && |z.callers| == |y.callers|
      && forall i :: 0 <= i < |z.callers| ==> z.callers[i] == if i < n then Loaded(Open) else Idle
  {
    hide Next;
    if n > 0 {
      LoadsRun(c, y, n - 1);
      var a := Step(n - 1, 0, false);
      RunConcat(c, y, Loads(n - 1), [a]);
      RunThree(c, Run(c, y, Loads(n - 1)), a, a, a);
      LoadOne(c, Run(c, y, Loads(n - 1)), n - 1);
    }
  }

  lemma LoadOne(c: Config, y: System, i: nat)
    requires i < |y.callers| && y.callers[i] == Idle
    ensures Next(c, y, Step(i, 0, false)) == y.(callers := y.callers[i := Loaded(y.shared.state)])
  {
  }

  lemma RunThree(c: Config, y: System, a1: Step, a2: Step, a3: Step)
    ensures Run(c, y, [a1]) == Next(c, y, a1)
    ensures Run(c, y, [a1, a2, a3]) == Next(c, Next(c, Next(c, y, a1), a2), a3)
  {
    assert [a1, a2, a3][..2] == [a1, a2] && [a1, a2][..1] == [a1] && [a1][..0] == [];
    assert Run(c, y, [a1]) == Next(c, y, a1);
    assert Run(c, y, [a1, a2]) == Next(c, Next(c, y, a1), a2);
  }

  lemma {:induction false} PromotionsRun(c: Config, y: System, n: nat, now: nat)
    requires n <= |y.callers| && Recovered(c, y.shared.lastFailureTime, now)
    requires forall i :: 0 <= i < |y.callers| ==> y.callers[i] == Loaded(Open)
    ensures var z := Run(c, y, Promotions(n, now));
      && z.shared == (if n == 0 then y.shared else y.shared.(state := HalfOpen)) && |z.callers| == |y.callers|
      && forall i :: 0 <= i < |z.callers| ==> z.callers[i] == if i < n then Running(Open) else Loaded(Open)
  {
    hide Next, Act, Recovered;
    if n > 0 {
      PromotionsRun(c, y, n - 1, now);
      var a := Step(n - 1, now, false);
      RunConcat(c, y, Promotions(n - 1, now), [a, a, a]);
      RunThree(c, Run(c, y, Promotions(n - 1, now)), a, a, a);
      PromoteOne(c, Run(c, y, Promotions(n - 1, now)), n - 1, now);
    }
  }

  lemma PromoteOne(c: Config, y: System, i: nat, now: nat)
    requires i < |y.callers| && y.callers[i] == Loaded(Open) && Recovered(c, y.shared.lastFailureTime, now)
    ensures var a := Step(i, now, false);
      Next(c, Next(c, Next(c, y, a), a), a)
      == y.(shared := y.shared.(state := HalfOpen), callers := y.callers[i := Running(Open)])
  {
    hide Recovered;
    var a := Step(i, now, false);
    var z := Next(c, y, a);
    assert z == y.(callers := y.callers[i := Checking(y.shared.lastFailureTime)]);
    assert Next(c, z, a) == y.(callers := y.callers[i := Promoting]);
  }

  /** The documented limit of one call in the half-open state does not hold for callers that loaded Open: any number of
      them can run their futures at once while the breaker is half open. */
  lemma OpenLoadersUnlimited(c: Config, y: System, now: nat) returns (steps: seq<Step>)
    requires Initial(y) && y.shared.state == Open && |y.callers| >= 1 && Recovered(c, y.shared.lastFailureTime, now)
    ensures var z := Run(c, y, steps);
      z.shared.state == HalfOpen && |z.callers| == |y.callers| && forall i :: 0 <= i < |z.callers| ==>
        z.callers[i] == Running(Open)
  {
    var n := |y.callers|;
    steps := Loads(n) + Promotions(n, now);
    LoadsRun(c, y, n);
    PromotionsRun(c, Run(c, y, Loads(n)), n, now);
    RunConcat(c, y, Loads(n), Promotions(n, now));
  }

  // ---- The two models agree ----

  /** A caller takes n actions with no one else moving: the clock reads `start` until the future has ended, then
      `end`. The last component collects what the caller is told. */
  function Drive(c: Config, s: Shared, p: Caller, a: Attempt, n: nat): (Shared, Caller, seq<CallResult>)
    decreases n
  {
    if n == 0 then (s, p, [])
    else
      var (s', p', r) := Act(c, s, p, Clocked(p, a), a.succeeds);
      var (s'', p'', rest) := Drive(c, s', p', a, n - 1);
      (s'', p'', r + rest)
  }

  /** The number of actions from a running future to the end of the call. */
  function Remaining(seen: CircuitState, succeeds: bool): nat {
    (if succeeds then 3 else 4) + (if seen == HalfOpen then 1 else 0)
  }

  function Clocked(p: Caller, a: Attempt): nat {
    if p.Counted? then a.end else a.start
  }

  lemma Quiet(c: Config, s: Shared, p: Caller, a: Attempt, n: nat)
    requires Act(c, s, p, Clocked(p, a), a.succeeds).2 == []
    ensures var (s', p', _) := Act(c, s, p, Clocked(p, a), a.succeeds);
      Drive(c, s, p, a, n + 1) == Drive(c, s', p', a, n)
  {
    hide Act;
    var (s', p', _) := Act(c, s, p, Clocked(p, a), a.succeeds);
    assert [] + Drive(c, s', p', a, n).2 == Drive(c, s', p', a, n).2;
  }

  lemma Final(c: Config, s: Shared, p: Caller, a: Attempt)
    ensures Drive(c, s, p, a, 1) == Act(c, s, p, Clocked(p, a), a.succeeds)
  {
    hide Act;
    var (s', p', r) := Act(c, s, p, Clocked(p, a), a.succeeds);
    assert Drive(c, s', p', a, 0) == (s', p', []);
    assert r + [] == r;
  }

  lemma FinishCall(c: Config, s: Shared, seen: CircuitState, a: Attempt)
    requires seen == HalfOpen ==> s.halfOpenCalls >= 1
    ensures var t := if a.succeeds then OnSuccess(s) else OnFailure(c, s, a.end);
      Drive(c, s, Running(seen), a, Remaining(seen, a.succeeds))
      == (if seen == HalfOpen then t.(halfOpenCalls := s.halfOpenCalls - 1) else t, Idle,
          [if a.succeeds then Ok else InnerError])
  {
    hide Drive;
    var k := if seen == HalfOpen then 1 else 0;
    if a.succeeds {
      Quiet(c, s, Running(seen), a, 2 + k);
      var t := s.(failureCount := 0);
      Quiet(c, s, Succeeded(seen), a, 1 + k);
      EndCall(c, t, ResetDone(seen), a);
    } else {
      Quiet(c, s, Running(seen), a, 3 + k);
      Quiet(c, s, Failed(seen), a, 2 + k);
      var count := s.failureCount + 1;
      var t := s.(failureCount := count);
      Quiet(c, t, Counted(seen, count), a, 1 + k);
      EndCall(c, t.(lastFailureTime := a.end), Stamped(seen, count), a);
    }
  }

  /** The last action of a call, or the last two when it holds the half-open slot. */
  lemma EndCall(c: Config, s: Shared, p: Caller, a: Attempt)
    requires p.ResetDone? || p.Stamped?
    ensures var t := if p.ResetDone? then s.(state := Closed)
                     else if p.count >= c.threshold then s.(state := Open) else s;
      var told := [Outcome(p.ResetDone?)];
      && (p.seen != HalfOpen ==> Drive(c, s, p, a, 1) == (t, Idle, told))
      && (p.seen == HalfOpen ==>
            Drive(c, s, p, a, 2) == (t.(halfOpenCalls := Minus1(s.halfOpenCalls)), Idle, told))
  {
    hide Drive;
    if p.seen == HalfOpen {
      Quiet(c, s, p, a, 1);
      var (t, q, _) := Act(c, s, p, a.start, a.succeeds);
      Final(c, t, q, a);
    } else {
      Final(c, s, p, a);
    }
  }

  /** A call whose actions nothing interrupts does what CallOnce says, to the fields and to its caller. */
  lemma SoloCall(c: Config, s: Shared, a: Attempt) returns (n: nat)
    ensures var (s', r) := CallOnce(c, s, a.start, a.end, a.succeeds); Drive(c, s, Idle, a, n) == (s', Idle, [r])
  {
    hide Drive;
    var k := if CallOnce(c, s, a.start, a.end, a.succeeds).1 == OpenError then 1 else Remaining(s.state, a.succeeds);
    if s.state == Open {
      var last := s.lastFailureTime;
      n := if Recovered(c, last, a.start) then 4 + k else 3;
      Quiet(c, s, Idle, a, n - 1);
      Quiet(c, s, Loaded(Open), a, n - 2);
      if Recovered(c, last, a.start) {
        Quiet(c, s, Checking(last), a, 1 + k);
        Quiet(c, s, Promoting, a, k);
        FinishCall(c, s.(state := HalfOpen), Open, a);
      } else {
        Final(c, s, Checking(last), a);
      }
    } else {
      n := 2 + k;
      Quiet(c, s, Idle, a, 1 + k);
      Quiet(c, s, Loaded(s.state), a, k);
      var (t, p, _) := Act(c, s, Loaded(s.state), a.start, a.succeeds);
      if p == Rejecting {
        Final(c, t, Rejecting, a);
      } else {
        FinishCall(c, t, s.state, a);
      }
    }
  }

  // ---- What interleaved callers are told ----

  /** The outcomes of the futures of caller i, in order. */
  function EndedOf(log: seq<(nat, bool)>, i: nat): seq<bool> {
    if log == [] then []
    else
      var (j, ok) := log[|log| - 1];
      EndedOf(log[..|log| - 1], i) + if j == i then [ok] else []
  }

  /** The outcomes caller i was told of, in order: true for Ok, false for InnerError. */
  function ToldOf(log: seq<(nat, CallResult)>, i: nat): seq<bool> {
    if log == [] then []
    else
      var (j, r) := log[|log| - 1];
      ToldOf(log[..|log| - 1], i) + if j == i && r != OpenError then [r == Ok] else []
  }

  /** The outcome a caller knows and has not returned yet. */
  function Held(p: Caller): seq<bool> {
    match p
    case Succeeded(_) => [true]
    case ResetDone(_) => [true]
    case Failed(_) => [false]
    case Counted(_, _) => [false]
    case Stamped(_, _) => [false]
    case Releasing(ok) => [ok]
    case _ => []
  }

  lemma OneEnded(log: seq<(nat, bool)>, j: nat, ok: bool, i: nat)
    ensures EndedOf(log + [(j, ok)], i) == EndedOf(log, i) + if j == i then [ok] else []
  {
    assert (log + [(j, ok)])[..|log|] == log;
  }

  lemma OneTold(log: seq<(nat, CallResult)>, j: nat, r: CallResult, i: nat)
    ensures ToldOf(log + [(j, r)], i) == ToldOf(log, i) + if j == i && r != OpenError then [r == Ok] else []
  {
    assert (log + [(j, r)])[..|log|] == log;
  }

  lemma ActTells(c: Config, s: Shared, p: Caller, now: nat, ok: bool)
    ensures var (_, p', r) := Act(c, s, p, now, ok);
      && |r| <= 1 && (r != [] ==> p' == Idle)
      && Held(p) + (if p.Running? then [ok] else [])
         == (if r == [] || r == [OpenError] then [] else [r[0] == Ok]) + Held(p')
  {
  }

  /** In every interleaving, the outcomes a caller is told of are those of its own futures, in order and each once,
      the last one perhaps not told yet: Ok for a future that succeeded, InnerError for one that failed. */
  lemma {:induction false} EachToldItsOwn(c: Config, y: System, steps: seq<Step>, i: nat)
    requires Initial(y) && y.ended == [] && y.told == [] && i < |y.callers|
    ensures var z := Run(c, y, steps);
      |z.callers| == |y.callers| && EndedOf(z.ended, i) == ToldOf(z.told, i) + Held(z.callers[i])
  {
    hide Act;
    if steps != [] {
      var n := |steps| - 1;
      EachToldItsOwn(c, y, steps[..n], i);
      TellsOn(c, Run(c, y, steps[..n]), steps[n], i);
    }
  }

  lemma TellsOn(c: Config, y: System, a: Step, i: nat)
    requires i < |y.callers| && EndedOf(y.ended, i) == ToldOf(y.told, i) + Held(y.callers[i])
    ensures var z := Next(c, y, a); EndedOf(z.ended, i) == ToldOf(z.told, i) + Held(z.callers[i])
  {
    hide Act, Held, EndedOf, ToldOf;
    if a.i < |y.callers| {
      var p := y.callers[a.i];
      var (s', p', r) := Act(c, y.shared, p, a.now, a.ok);
      ActTells(c, y.shared, p, a.now, a.ok);
      OneEnded(y.ended, a.i, a.ok, i);
      assert y.ended + [] == y.ended && y.told + [] == y.told;
      var x := if p.Running? then [a.ok] else [];
      var w := if r == [] || r == [OpenError] then [] else [r[0] == Ok];
      var before := ToldOf(y.told, i);
      assert (before + Held(p)) + x == before + (Held(p) + x);
      assert before + (w + Held(p')) == (before + w) + Held(p');
      if r == [] {
        assert Tag(a.i, r) == [];
        assert before + [] == before;
      } else {
        assert Tag(a.i, r) == [(a.i, r[0])];
        OneTold(y.told, a.i, r[0], i);
      }
      var z := Next(c, y, a);
      assert ToldOf(z.told, i) == before + if a.i == i then w else [];
      assert EndedOf(z.ended, i) == EndedOf(y.ended, i) + if a.i == i then x else [];
    }
  }

  // ---- When the documented limit holds ----

  /** A caller whose future runs on a trial: it loaded Open and went ahead, or it loaded HalfOpen and got the slot. */
  function Trial1(p: Caller): nat {
    if p == Running(Open) || p == Running(HalfOpen) then 1 else 0
  }

  /** A caller in flight that loaded Open. */
  function LoadedOpen1(p: Caller): nat {
    match p
    case Loaded(seen) => if seen == Open then 1 else 0
    case Checking(_) => 1
    case Promoting => 1
    case Running(seen) => if seen == Open then 1 else 0
    case Succeeded(seen) => if seen == Open then 1 else 0
    case ResetDone(seen) => if seen == Open then 1 else 0
    case Failed(seen) => if seen == Open then 1 else 0
    case Counted(seen, _) => if seen == Open then 1 else 0
    case Stamped(seen, _) => if seen == Open then 1 else 0
    case _ => 0
  }

  function Trials(y: System): nat {
    Total(y.callers, Trial1)
  }

  lemma {:induction false} TrialsSplit(callers: seq<Caller>)
    ensures Total(callers, Trial1) <= Total(callers, Probing1) + Total(callers, LoadedOpen1)
    ensures Total(callers, Trial1) <= |callers|
    ensures (forall i :: 0 <= i < |callers| ==> callers[i] == Running(Open)) ==> Total(callers, Trial1) == |callers|
  {
    if callers != [] {
      TrialsSplit(callers[..|callers| - 1]);
    }
  }

  /** In every interleaving, at most one trial future runs beyond those of callers that loaded Open. */
  lemma TrialBound(c: Config, y: System, steps: seq<Step>)
    requires Initial(y)
    ensures var z := Run(c, y, steps); Trials(z) <= 1 + Total(z.callers, LoadedOpen1)
  {
    HalfOpenLimiter(c, y, steps);
    TrialsSplit(Run(c, y, steps).callers);
  }

  /** The actions of Drive, as steps of the first caller. */
  function DriveSteps(c: Config, s: Shared, p: Caller, a: Attempt, n: nat): seq<Step>
    decreases n
  {
    if n == 0 then []
    else
      var now := Clocked(p, a);
      var (s', p', _) := Act(c, s, p, now, a.succeeds);
      [Step(0, now, a.succeeds)] + DriveSteps(c, s', p', a, n - 1)
  }

  lemma TagConcat<T>(i: nat, a: seq<T>, b: seq<T>)
    ensures Tag(i, a + b) == Tag(i, a) + Tag(i, b) && Tag<T>(i, []) == []
  {
  }

  lemma FirstMoves(c: Config, y: System, a: Step)
    requires |y.callers| > 0 && a.i == 0
    ensures var (s, p, r) := Act(c, y.shared, y.callers[0], a.now, a.ok);
      var z := Next(c, y, a);
      z.shared == s && z.callers == y.callers[0 := p] && z.told == y.told + Tag(0, r)
  {
    hide Act, Tag;
  }

  lemma {:induction false} DriveRuns(c: Config, y: System, a: Attempt, n: nat)
    requires |y.callers| > 0
    ensures var (s, p, r) := Drive(c, y.shared, y.callers[0], a, n);
      var z := Run(c, y, DriveSteps(c, y.shared, y.callers[0], a, n));
      z.shared == s && z.callers == y.callers[0 := p] && z.told == y.told + Tag(0, r)
    decreases n
  {
    hide Act, Next, Run, Tag;
    if n == 0 {
      RunNone(c, y);
      TagConcat<CallResult>(0, [], []);
      assert y.callers[0 := y.callers[0]] == y.callers;
    } else {
      var p := y.callers[0];
      var now := Clocked(p, a);
      var first := Step(0, now, a.succeeds);
      var z := Next(c, y, first);
      RunThree(c, y, first, first, first);
      FirstMoves(c, y, first);
      DriveRuns(c, z, a, n - 1);
      RunConcat(c, y, [first], DriveSteps(c, z.shared, z.callers[0], a, n - 1));
      var (s, q, rest) := Drive(c, z.shared, z.callers[0], a, n - 1);
      var r := Act(c, y.shared, p, now, a.succeeds).2;
      assert z.callers[0 := q] == y.callers[0 := q];
      TagConcat(0, r, rest);
    }
  }

  /** A whole call of the first caller, with the others idle. */
  lemma WholeCall(c: Config, y: System, a: Attempt) returns (steps: seq<Step>)
    requires Initial(y) && |y.callers| > 0
    ensures var (s, r) := CallOnce(c, y.shared, a.start, a.end, a.succeeds);
      var z := Run(c, y, steps);
      z.shared == s && z.callers == y.callers && z.told == y.told + [(0, r)]
  {
    hide Act, CallOnce, Run;
    var n := SoloCall(c, y.shared, a);
    steps := DriveSteps(c, y.shared, y.callers[0], a, n);
    DriveRuns(c, y, a, n);
    assert y.callers[0 := Idle] == y.callers;
  }

  function CallsToOpen(c: Config, s: Shared): nat {
    if s.state == Open then 0 else if s.failureCount < c.threshold then 1 + c.threshold - s.failureCount else 1
  }

  /** From every state at rest, a fresh breaker included, failing calls open the breaker. */
  lemma ReachesOpen(c: Config, y: System) returns (steps: seq<Step>)
    requires Initial(y) && |y.callers| > 0
    ensures var z := Run(c, y, steps); Initial(z) && z.shared.state == Open && z.callers == y.callers
    decreases CallsToOpen(c, y.shared)
  {
    hide Act, Run;
    if y.shared.state == Open {
      steps := [];
      RunNone(c, y);
    } else {
      var a := Attempt(y.shared.lastFailureTime, y.shared.lastFailureTime, false);
      steps := WholeCall(c, y, a);
      var z := Run(c, y, steps);
      var more := ReachesOpen(c, z);
      RunConcat(c, y, steps, more);
      steps := steps + more;
    }
  }

  lemma RunNone(c: Config, y: System)
    ensures Run(c, y, []) == y
  {
  }

  lemma {:induction false} RunKeepsCallers(c: Config, y: System, steps: seq<Step>)
    ensures |Run(c, y, steps).callers| == |y.callers|
  {
    if steps != [] {
      RunKeepsCallers(c, y, steps[..|steps| - 1]);
    }
  }

  lemma LateEnough(c: Config, last: nat)
    ensures Recovered(c, last, last + c.timeoutNs / 1_000_000 + 1)
  {
  }

  /** From every state at rest, any number of callers can be made to run trial futures at once. */
  lemma AllOnTrial(c: Config, y: System) returns (steps: seq<Step>)
    requires Initial(y) && |y.callers| > 0
    ensures Trials(Run(c, y, steps)) == |y.callers| && Run(c, y, steps).shared.state == HalfOpen
  {
    hide Act, Run, Recovered;
    var first := ReachesOpen(c, y);
    var z := Run(c, y, first);
    LateEnough(c, z.shared.lastFailureTime);
    var second := OpenLoadersUnlimited(c, z, z.shared.lastFailureTime + c.timeoutNs / 1_000_000 + 1);
    RunConcat(c, y, first, second);
    steps := first + second;
    TrialsSplit(Run(c, y, steps).callers);
  }

  /** At most one trial future runs at a time, over all interleavings, if and only if there is at most one caller. */
  lemma HalfOpenLimitIff(c: Config, y: System)
    requires Initial(y)
    ensures (forall steps :: Trials(Run(c, y, steps)) <= 1) <==> |y.callers| <= 1
  {
    hide Act, Run;
    if |y.callers| <= 1 {
      forall steps ensures Trials(Run(c, y, steps)) <= 1 {
        RunKeepsCallers(c, y, steps);
        TrialsSplit(Run(c, y, steps).callers);
      }
    } else {
      var steps := AllOnTrial(c, y);
      assert Trials(Run(c, y, steps)) > 1;
    }
  }
}
