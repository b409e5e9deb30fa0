/** Cadence rules and rate limiters (src/cadence_translation.rs). Intervals and times are in nanoseconds. */
module Cadence {
  import opened Bytes
  import opened Protocols

  datatype Transformation =
    | Passthrough
    | RateLimit(minInterval: nat)
    | Aggregate(windowMs: nat)
    | Duplicate(maxDuplicates: nat)
    | Throttle(minInterval: nat)

  datatype Rule = Rule(source: Protocol, messageType: string, transformation: Transformation)

  datatype Action = Send | Drop | Copies(count: nat) | Buffer(windowMs: nat)

  /** A limiter of one message type and protocol: when it last let a message pass, and the gap it demands. */
  datatype Limiter = Limiter(lastSent: int, minInterval: nat)

  type Limiters = map<(string, Protocol), Limiter>

  function FindRule(rules: seq<Rule>, messageType: string, p: Protocol): Option<Rule> {
    if rules == [] then None
    else if Applies(rules[0], messageType, p) then Some(rules[0])
    else FindRule(rules[1..], messageType, p)
  }

  predicate Applies(r: Rule, messageType: string, p: Protocol) {
    r.messageType == messageType && r.source == p
  }

  predicate FirstAt(rules: seq<Rule>, messageType: string, p: Protocol, i: nat) {
    i < |rules| && Applies(rules[i], messageType, p) && forall j :: 0 <= j < i ==> !Applies(rules[j], messageType, p)
  }

  /** The rule found is the first that applies; none is found exactly when none applies. */
  lemma {:induction false} FirstRuleApplies(rules: seq<Rule>, messageType: string, p: Protocol)
    ensures FindRule(rules, messageType, p).None? <==>
      forall i :: 0 <= i < |rules| ==> !Applies(rules[i], messageType, p)
    ensures forall i: nat :: FirstAt(rules, messageType, p, i) ==> FindRule(rules, messageType, p) == Some(rules[i])
  {
    if rules != [] {
      var rest := rules[1..];
      FirstRuleApplies(rest, messageType, p);
      assert forall i :: 0 < i < |rules| ==> rules[i] == rest[i - 1];
      forall i: nat | i > 0 && FirstAt(rules, messageType, p, i)
        ensures FindRule(rules, messageType, p) == Some(rules[i])
      {
        assert forall j :: 0 <= j < i - 1 ==> rest[j] == rules[j + 1];
        assert FirstAt(rest, messageType, p, i - 1);
      }
    }
  }

  function ShouldSend(l: Limiter, now: int): (Limiter, bool) {
    if now - l.lastSent >= l.minInterval then (l.(lastSent := now), true) else (l, false)
  }

  /** Ask the limiter of a key, which starts out ready to send. */
  function Limit(ls: Limiters, key: (string, Protocol), minInterval: nat, now: int): (Limiters, Action) {
    var l := if key in ls then ls[key] else Limiter(now - minInterval, minInterval);
    var (l', pass) := ShouldSend(l, now);
    (ls[key := l'], if pass then Send else Drop)
  }

  function Translate(rules: seq<Rule>, ls: Limiters, messageType: string, p: Protocol, priority: Priority,
      now: int): (Limiters, Action) {
    if priority == Emergency then (ls, Send)
    else
      match FindRule(rules, messageType, p)
      case None => (ls, Send)
      case Some(rule) =>
        match rule.transformation
        case Passthrough => (ls, Send)
        case RateLimit(d) => Limit(ls, (messageType, p), d, now)
        case Aggregate(w) => (ls, Buffer(w))
        case Duplicate(n) => (ls, Copies(n))
        case Throttle(d) => Limit(ls, (messageType, p), d, now)
  }

  function DefaultRules(): seq<Rule> {
    [Rule(IridiumSBD, "heartbeat", Duplicate(720)),
     Rule(IridiumSBD, "location", Throttle(10_000_000_000)),
     Rule(IridiumSBD, "telemetry", Duplicate(60)),
     Rule(IridiumSBD, "emergency", Passthrough)]
  }

  /** What the default rules do to a message that is not an emergency. */
  lemma DefaultActions(ls: Limiters, messageType: string, p: Protocol, priority: Priority, now: int)
    requires priority != Emergency
    ensures Translate(DefaultRules(), ls, messageType, p, priority, now) ==
      if p != IridiumSBD then (ls, Send)
      else if messageType == "heartbeat" then (ls, Copies(720))
      else if messageType == "location" then Limit(ls, (messageType, p), 10_000_000_000, now)
      else if messageType == "telemetry" then (ls, Copies(60))
      else (ls, Send)
  {
    hide Limit, FindRule;
    var r := DefaultRules();
    assert "heartbeat"[0] == 'h' && "location"[0] == 'l' && "telemetry"[0] == 't' && "emergency"[0] == 'e';
    FirstRuleApplies(r, messageType, p);
    assert FirstAt(r, "heartbeat", IridiumSBD, 0) && FirstAt(r, "location", IridiumSBD, 1);
    assert FirstAt(r, "telemetry", IridiumSBD, 2) && FirstAt(r, "emergency", IridiumSBD, 3);
  }

  class CadenceTranslator {
    var rules: seq<Rule>
    var limiters: Limiters

    constructor ()
      ensures rules == [] && limiters == map[]
    {
      rules, limiters := [], map[];
    }

    method AddRule(rule: Rule)
      modifies this`rules
      ensures rules == old(rules) + [rule]
    {
      rules := rules + [rule];
    }

    method TranslateMessage(messageType: string, p: Protocol, priority: Priority, now: int) returns (action: Action)
      modifies this`limiters
      ensures (limiters, action) == Translate(rules, old(limiters), messageType, p, priority, now)
    {
      if priority == Emergency {
        return Send;
      }
      var found := FindRule(rules, messageType, p);
      if found.None? {
        return Send;
      }
      match found.value.transformation {
        case Passthrough => action := Send;
        case Aggregate(w) => action := Buffer(w);
        case Duplicate(n) => action := Copies(n);
        case RateLimit(d) => action := AskLimiter((messageType, p), d, now);
        case Throttle(d) => action := AskLimiter((messageType, p), d, now);
      }
    }

    method AskLimiter(key: (string, Protocol), minInterval: nat, now: int) returns (action: Action)
      modifies this`limiters
      ensures (limiters, action) == Limit(old(limiters), key, minInterval, now)
    {
      var l := if key in limiters then limiters[key] else Limiter(now - minInterval, minInterval);
      var (l', pass) := ShouldSend(l, now);
      limiters := limiters[key := l'];
      action := if pass then Send else Drop;
    }
  }

  // ---- What a limiter guarantees ----

  /** The times at which a limiter asked at the given times lets a message pass. */
  function Passed(minInterval: nat, times: seq<int>): seq<int> {
    if times == [] then []
    else
      var before := Passed(minInterval, times[..|times| - 1]);
      var now := times[|times| - 1];
      if before == [] || now - before[|before| - 1] >= minInterval then before + [now] else before
  }

  lemma {:induction false} PassedSpaced(minInterval: nat, times: seq<int>)
    ensures var passed := Passed(minInterval, times);
      && (times != [] ==> passed != [])
      && forall i :: 1 <= i < |passed| ==> passed[i] - passed[i - 1] >= minInterval
  {
    if times != [] {
      PassedSpaced(minInterval, times[..|times| - 1]);
    }
  }

  // ---- Runs of a translator ----

  datatype Call = Call(messageType: string, protocol: Protocol, priority: Priority, now: int)

  function Answer(rules: seq<Rule>, ls: Limiters, x: Call): (Limiters, Action) {
    Translate(rules, ls, x.messageType, x.protocol, x.priority, x.now)
  }

  /** The limiters after a run of calls, from none. */
  function After(rules: seq<Rule>, calls: seq<Call>): Limiters {
    if calls == [] then map[] else Answer(rules, After(rules, calls[..|calls| - 1]), calls[|calls| - 1]).0
  }

  /** When the messages of one type and protocol came that were not emergencies. */
  function TimesOf(calls: seq<Call>, messageType: string, p: Protocol): seq<int> {
    if calls == [] then []
    else
      var x := calls[|calls| - 1];
      TimesOf(calls[..|calls| - 1], messageType, p) +
        if x.messageType == messageType && x.protocol == p && x.priority != Emergency then [x.now] else []
  }

  ghost predicate LimiterAt(ls: Limiters, key: (string, Protocol), minInterval: nat, times: seq<int>) {
    && (key in ls <==> times != [])
    && var passed := Passed(minInterval, times);
      times != [] ==> passed != [] && ls[key] == Limiter(passed[|passed| - 1], minInterval)
  }

  function Spaced(passed: seq<int>, interval: nat, now: int): Action {
    if passed == [] || now - passed[|passed| - 1] >= interval then Send else Drop
  }

  lemma LimitStep(ls: Limiters, key: (string, Protocol), minInterval: nat, times: seq<int>, now: int)
    requires LimiterAt(ls, key, minInterval, times)
    ensures LimiterAt(Limit(ls, key, minInterval, now).0, key, minInterval, times + [now])
    ensures Limit(ls, key, minInterval, now).1 == Spaced(Passed(minInterval, times), minInterval, now)
  {
    assert (times + [now])[..|times|] == times;
  }

  /** A call touches no limiter but that of its own type and protocol. */
  lemma OtherKeys(rules: seq<Rule>, ls: Limiters, x: Call, key: (string, Protocol))
    requires key != (x.messageType, x.protocol) || x.priority == Emergency
    ensures var ls' := Answer(rules, ls, x).0; (key in ls' <==> key in ls) && (key in ls ==> ls'[key] == ls[key])
  {
    hide FindRule;
  }

  lemma {:induction false} LimiterTracks(rules: seq<Rule>, calls: seq<Call>, messageType: string, p: Protocol)
    requires var r := FindRule(rules, messageType, p);
      r.Some? && (r.value.transformation.RateLimit? || r.value.transformation.Throttle?)
    ensures var d := FindRule(rules, messageType, p).value.transformation.minInterval;
      LimiterAt(After(rules, calls), (messageType, p), d, TimesOf(calls, messageType, p))
  {
    hide FindRule, Passed;
    if calls != [] {
      var k := |calls| - 1;
      var x := calls[k];
      LimiterTracks(rules, calls[..k], messageType, p);
      var before, times := After(rules, calls[..k]), TimesOf(calls[..k], messageType, p);
      if x.messageType == messageType && x.protocol == p && x.priority != Emergency {
        var d := FindRule(rules, messageType, p).value.transformation.minInterval;
        LimitStep(before, (messageType, p), d, times, x.now);
      } else {
        OtherKeys(rules, before, x, (messageType, p));
        assert TimesOf(calls, messageType, p) == times;
      }
    }
  }

  /** When the messages of one type and protocol that are not emergencies were sent. */
  function SentOf(rules: seq<Rule>, calls: seq<Call>, messageType: string, p: Protocol): seq<int> {
    if calls == [] then []
    else
      var k, x := |calls| - 1, calls[|calls| - 1];
      var sent := Answer(rules, After(rules, calls[..k]), x).1 == Send;
      SentOf(rules, calls[..k], messageType, p) +
        if x.messageType == messageType && x.protocol == p && x.priority != Emergency && sent then [x.now] else []
  }

  /** Over every run, of the messages of a type and protocol under a rate limit or a throttle exactly the greedy
      subsequence is sent: the first, and each that comes at least the interval after the last one sent. */
  lemma {:induction false} LimiterSpacing(rules: seq<Rule>, calls: seq<Call>, messageType: string, p: Protocol)
    requires var r := FindRule(rules, messageType, p);
      r.Some? && (r.value.transformation.RateLimit? || r.value.transformation.Throttle?)
    ensures var d := FindRule(rules, messageType, p).value.transformation.minInterval;
      var sent := SentOf(rules, calls, messageType, p);
      && sent == Passed(d, TimesOf(calls, messageType, p))
      && (TimesOf(calls, messageType, p) != [] ==> sent != [])
      && forall i :: 1 <= i < |sent| ==> sent[i] - sent[i - 1] >= d
  {
    hide FindRule, SentOf, Passed;
    SentIsPassed(rules, calls, messageType, p);
    PassedSpaced(FindRule(rules, messageType, p).value.transformation.minInterval, TimesOf(calls, messageType, p));
  }

  lemma {:induction false} SentIsPassed(rules: seq<Rule>, calls: seq<Call>, messageType: string, p: Protocol)
    requires var r := FindRule(rules, messageType, p);
      r.Some? && (r.value.transformation.RateLimit? || r.value.transformation.Throttle?)
    ensures var d := FindRule(rules, messageType, p).value.transformation.minInterval;
      SentOf(rules, calls, messageType, p) == Passed(d, TimesOf(calls, messageType, p))
  {
    var d := FindRule(rules, messageType, p).value.transformation.minInterval;
    hide FindRule, Limit, Answer, Passed, LimiterAt, After, Spaced;
    if calls == [] {
      PassedNone(d);
    } else {
      var k, x := |calls| - 1, calls[|calls| - 1];
      var times := TimesOf(calls[..k], messageType, p);
      SentIsPassed(rules, calls[..k], messageType, p);
      if x.messageType == messageType && x.protocol == p && x.priority != Emergency {
        LimiterTracks(rules, calls[..k], messageType, p);
        LimitStep(After(rules, calls[..k]), (messageType, p), d, times, x.now);
        LimitedAnswer(rules, After(rules, calls[..k]), x);
        PassedSnoc(d, times, x.now);
      } else {
        assert TimesOf(calls, messageType, p) == times;
      }
    }
  }

  lemma LimitedAnswer(rules: seq<Rule>, ls: Limiters, x: Call)
    requires x.priority != Emergency
    requires var r := FindRule(rules, x.messageType, x.protocol);
      r.Some? && (r.value.transformation.RateLimit? || r.value.transformation.Throttle?)
    ensures var d := FindRule(rules, x.messageType, x.protocol).value.transformation.minInterval;
      Answer(rules, ls, x) == Limit(ls, (x.messageType, x.protocol), d, x.now)
  {
    hide FindRule, Limit;
  }

  lemma PassedSnoc(minInterval: nat, times: seq<int>, now: int)
    ensures var passed := Passed(minInterval, times);
      Passed(minInterval, times + [now]) ==
        passed + if Spaced(passed, minInterval, now) == Send then [now] else []
  {
    assert (times + [now])[..|times|] == times;
  }

  lemma PassedNone(minInterval: nat)
    ensures Passed(minInterval, []) == []
  {
  }

  /** Over every run: what one more message is answered. An emergency, a message no rule speaks of and one that the
      rules pass through are sent; otherwise the first rule of its type and protocol decides. Under a rate limit or a
      throttle it is sent exactly when the interval has passed since the last one of its kind that was sent, the
      first at once; whatever other kinds of message do. */
  lemma ActionInRun(rules: seq<Rule>, calls: seq<Call>, x: Call, i: nat)
    requires i < |rules| ==> FirstAt(rules, x.messageType, x.protocol, i)
    requires i >= |rules| ==> forall j :: 0 <= j < |rules| ==> !Applies(rules[j], x.messageType, x.protocol)
    ensures var action := Answer(rules, After(rules, calls), x).1;
      if x.priority == Emergency || i >= |rules| then action == Send
      else
        var times := TimesOf(calls, x.messageType, x.protocol);
        match rules[i].transformation
        case Passthrough => action == Send
        case Aggregate(w) => action == Buffer(w)
        case Duplicate(n) => action == Copies(n)
        case RateLimit(d) => action == Spaced(Passed(d, times), d, x.now)
        case Throttle(d) => action == Spaced(Passed(d, times), d, x.now)
  {
    hide FindRule, Passed;
    FirstRuleApplies(rules, x.messageType, x.protocol);
    if i < |rules| && (rules[i].transformation.RateLimit? || rules[i].transformation.Throttle?) {
      LimiterTracks(rules, calls, x.messageType, x.protocol);
      LimitStep(After(rules, calls), (x.messageType, x.protocol), rules[i].transformation.minInterval,
                TimesOf(calls, x.messageType, x.protocol), x.now);
    }
  }
}
