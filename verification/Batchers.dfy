/** The batching task in front of translation (src/batcher.rs). Its output channel is the list of batches sent, and
    the receiver of that channel is alive. */
module AsyncBatching {
  import opened Bytes
  import opened Protocols

  datatype Config = Config(maxBatchSize: nat, timeout: nat, spreadThresholdMs: int)

  /** The locals of the batching loop and everything it has sent. A closed task has left its loop; what it still held is
      lost. */
  datatype Task = Task(buffer: seq<Message>, lastFlush: nat, out: seq<seq<Message>>, closed: bool)

  /** What wakes the loop, with the clock then and after the send that may follow. */
  datatype Event = Arrive(message: Message, now: nat, after: nat) | Timer(now: nat, after: nat) | Close

  predicate IsEmergency(m: Message) {
    m.priority == Emergency
  }

  function SafetyCritical1(m: Message): nat {
    if m.priority == SafetyCritical then 1 else 0
  }

  predicate OverThreshold(c: Config, m: Message) {
    SpreadMs(m) > c.spreadThresholdMs
  }

  predicate ShouldFlush(c: Config, buffer: seq<Message>) {
    Total(buffer, SafetyCritical1) >= 5 || exists i :: 0 <= i < |buffer| && OverThreshold(c, buffer[i])
  }

  function Step(c: Config, t: Task, e: Event): Task {
    if t.closed then t
    else
      match e
      case Arrive(m, now, after) =>
        if IsEmergency(m) then t.(out := t.out + [[m]])
        else
          var buffer := t.buffer + [m];
          if |buffer| >= c.maxBatchSize || now - t.lastFlush >= c.timeout || ShouldFlush(c, buffer)
          then Task([], after, t.out + [buffer], false)
          else t.(buffer := buffer)
      case Timer(now, after) =>
        if now >= t.lastFlush + c.timeout && t.buffer != [] then Task([], after, t.out + [t.buffer], false) else t
      case Close => t.(closed := true)
  }

  function Started(now: nat): Task {
    Task([], now, [], false)
  }

  function Run(c: Config, start: nat, events: seq<Event>): Task {
    if events == [] then Started(start) else Step(c, Run(c, start, events[..|events| - 1]), events[|events| - 1])
  }

  /** The messages received before the channel closed. */
  function Inputs(events: seq<Event>): seq<Message> {
    if events == [] then []
    else
      var before := Inputs(events[..|events| - 1]);
      var e := events[|events| - 1];
      if e.Arrive? && Close !in events[..|events| - 1] then before + [e.message] else before
  }

  /** The messages that are, or are not, emergencies, in order. */
  function Keep(ms: seq<Message>, emergencies: bool): seq<Message> {
    if ms == [] then []
    else
      var m := ms[|ms| - 1];
      Keep(ms[..|ms| - 1], emergencies) + (if IsEmergency(m) == emergencies then [m] else [])
  }

  lemma {:induction false} KeepConcat(a: seq<Message>, b: seq<Message>, e: bool)
    ensures Keep(a + b, e) == Keep(a, e) + Keep(b, e)
  {
    hide IsEmergency;
    if b == [] {
      assert a + b == a;
    } else {
      var k := |b| - 1;
      KeepConcat(a, b[..k], e);
      assert (a + b)[..|a + b| - 1] == a + b[..k];
    }
  }

  lemma {:induction false} KeepAll(a: seq<Message>, e: bool)
    requires forall i :: 0 <= i < |a| ==> IsEmergency(a[i]) == e
    ensures Keep(a, e) == a && Keep(a, !e) == []
  {
    if a != [] {
      KeepAll(a[..|a| - 1], e);
    }
  }

  function Cap(c: Config): nat {
    if c.maxBatchSize >= 1 then c.maxBatchSize else 1
  }

  ghost predicate Calm(c: Config, buffer: seq<Message>) {
    && (forall i :: 0 <= i < |buffer| ==> !IsEmergency(buffer[i]) && !OverThreshold(c, buffer[i]))
    && |buffer| < Cap(c) && Total(buffer, SafetyCritical1) <= 4
  }

  /** An emergency on its own; or regular messages, at least one and at most the cap, of which at most five are
      safety-critical and only the last may be over the spread threshold. */
  ghost predicate GoodBatch(c: Config, b: seq<Message>) {
    if |b| == 1 && IsEmergency(b[0]) then true
    else
      && 1 <= |b| <= Cap(c) && Total(b, SafetyCritical1) <= 5
      && (forall i :: 0 <= i < |b| ==> !IsEmergency(b[i]))
      && (forall i :: 0 <= i < |b| - 1 ==> !OverThreshold(c, b[i]))
  }

  ghost predicate Inv(c: Config, t: Task, inputs: seq<Message>) {
    && Keep(Flatten(t.out), false) + t.buffer == Keep(inputs, false)
    && Keep(Flatten(t.out), true) == Keep(inputs, true)
    && Calm(c, t.buffer)
    && (forall i :: 0 <= i < |t.out| ==> GoodBatch(c, t.out[i]))
  }

  lemma Emitted(c: Config, t: Task, b: seq<Message>, e: bool)
    requires forall i :: 0 <= i < |b| ==> IsEmergency(b[i]) == e
    ensures Keep(Flatten(t.out + [b]), e) == Keep(Flatten(t.out), e) + b
    ensures Keep(Flatten(t.out + [b]), !e) == Keep(Flatten(t.out), !e)
  {
    FlattenSnoc(t.out, b);
    KeepConcat(Flatten(t.out), b, e);
    KeepConcat(Flatten(t.out), b, !e);
    KeepAll(b, e);
  }

  lemma ArriveKeeps(c: Config, t: Task, inputs: seq<Message>, e: Event)
    requires !t.closed && e.Arrive? && Inv(c, t, inputs)
    ensures Inv(c, Step(c, t, e), inputs + [e.message])
  {
    hide SpreadMs, Keep, Flatten;
    var m := e.message;
    KeepConcat(inputs, [m], true);
    KeepConcat(inputs, [m], false);
    KeepAll([m], IsEmergency(m));
    if IsEmergency(m) {
      Emitted(c, t, [m], true);
    } else {
      var b := t.buffer + [m];
      assert b[..|b| - 1] == t.buffer;
      Emitted(c, t, b, false);
      assert Keep(Flatten(t.out), false) + (t.buffer + [m]) == Keep(Flatten(t.out), false) + t.buffer + [m];
      assert OverThreshold(c, b[|b| - 1]) ==> ShouldFlush(c, b);
      assert GoodBatch(c, b);
    }
  }

  lemma StepKeeps(c: Config, t: Task, inputs: seq<Message>, e: Event)
    requires Inv(c, t, inputs)
    ensures Inv(c, Step(c, t, e), if e.Arrive? && !t.closed then inputs + [e.message] else inputs)
  {
    hide SpreadMs, Keep, Flatten;
    if !t.closed {
      match e {
        case Arrive(_, _, _) => ArriveKeeps(c, t, inputs, e);
        case Timer(_, _) => TimerKeeps(c, t, inputs, e);
        case Close =>
      }
    }
  }

  lemma TimerKeeps(c: Config, t: Task, inputs: seq<Message>, e: Event)
    requires !t.closed && e.Timer? && Inv(c, t, inputs)
    ensures Inv(c, Step(c, t, e), inputs)
  {
    hide SpreadMs, Keep, Flatten, OverThreshold, IsEmergency;
    Emitted(c, t, t.buffer, false);
    assert Keep(Flatten(t.out), false) + t.buffer + [] == Keep(Flatten(t.out), false) + t.buffer;
  }

  /** Over every run: emergencies leave in order as singletons; the other messages leave in order, in good batches,
      and those not yet sent are in the buffer, which is shorter than the cap. */
  lemma {:induction false} Conserved(c: Config, start: nat, events: seq<Event>)
    ensures Inv(c, Run(c, start, events), Inputs(events))
    ensures Run(c, start, events).closed <==> Close in events
  {
    hide Inv, Step;
    if events == [] {
      StartKeeps(c, start);
    } else {
      var k := |events| - 1;
      Conserved(c, start, events[..k]);
      StepKeeps(c, Run(c, start, events[..k]), Inputs(events[..k]), events[k]);
      ClosedStep(c, Run(c, start, events[..k]), events[k]);
      assert events == events[..k] + [events[k]];
    }
  }

  lemma StartKeeps(c: Config, start: nat)
    ensures Inv(c, Started(start), [])
  {
  }

  lemma ClosedStep(c: Config, t: Task, e: Event)
    ensures Step(c, t, e).closed <==> t.closed || e == Close
  {
  }

  /** When the channel closes, what is lost is exactly the newest non-emergency messages, fewer than the cap. */
  lemma LossAtClose(c: Config, start: nat, events: seq<Event>)
    ensures var regular, sent := Keep(Inputs(events), false), Keep(Flatten(Run(c, start, events).out), false);
      |regular| - |sent| < Cap(c) && IsPrefix(sent, regular)
    ensures Keep(Flatten(Run(c, start, events).out), true) == Keep(Inputs(events), true)
  {
    Conserved(c, start, events);
    var t := Run(c, start, events);
    Split(Keep(Flatten(t.out), false), t.buffer);
  }

  /** An emergency leaves in the step in which it arrives, alone. */
  lemma EmergencyAtOnce(c: Config, start: nat, events: seq<Event>, m: Message, now: nat, after: nat)
    requires IsEmergency(m) && Close !in events
    ensures Run(c, start, events + [Arrive(m, now, after)]).out == Run(c, start, events).out + [[m]]
  {
    var e := Arrive(m, now, after);
    Conserved(c, start, events);
    assert (events + [e])[..|events|] == events;
  }

  // ---- How long a message waits ----

  /** The clock after a run. */
  function Clock(start: nat, events: seq<Event>): nat {
    if events == [] then start
    else
      match events[|events| - 1]
      case Arrive(_, _, after) => after
      case Timer(_, after) => after
      case Close => Clock(start, events[..|events| - 1])
  }

  /** The clock does not run backwards. */
  ghost predicate Ordered(start: nat, events: seq<Event>) {
    events == [] ||
    (Ordered(start, events[..|events| - 1]) &&
     match events[|events| - 1]
     case Arrive(_, now, after) => Clock(start, events[..|events| - 1]) <= now <= after
     case Timer(now, after) => Clock(start, events[..|events| - 1]) <= now <= after
     case Close => true)
  }

  /** When the messages in the buffer arrived. */
  function Waiting(c: Config, start: nat, events: seq<Event>): seq<nat> {
    if events == [] then []
    else
      var before := Waiting(c, start, events[..|events| - 1]);
      var t, u := Run(c, start, events[..|events| - 1]), Run(c, start, events);
      var e := events[|events| - 1];
      if u.buffer == [] then [] else if e.Arrive? && |u.buffer| > |t.buffer| then before + [e.now] else before
  }

  /** Every waiting message came after the last flush and before its timeout. */
  ghost predicate InTime(c: Config, t: Task, waiting: seq<nat>, clock: nat) {
    && |waiting| == |t.buffer| && t.lastFlush <= clock
    && forall i :: 0 <= i < |waiting| ==> t.lastFlush <= waiting[i] <= clock && waiting[i] < t.lastFlush + c.timeout
  }

  lemma {:induction false} WaitingInTime(c: Config, start: nat, events: seq<Event>)
    requires Ordered(start, events)
    ensures InTime(c, Run(c, start, events), Waiting(c, start, events), Clock(start, events))
  {
    hide ShouldFlush;
    if events != [] {
      WaitingInTime(c, start, events[..|events| - 1]);
    }
  }

  /** Over every run: when the loop wakes for the timer or a regular message at or after the arrival of a waiting
      message plus the timeout, all that waits leaves in that step. */
  lemma BoundedWait(c: Config, start: nat, events: seq<Event>, e: Event)
    requires Ordered(start, events) && Close !in events
    requires e.Timer? || (e.Arrive? && !IsEmergency(e.message))
    ensures var t, u, w := Run(c, start, events), Run(c, start, events + [e]), Waiting(c, start, events);
      |w| == |t.buffer| && forall i :: 0 <= i < |w| && e.now >= w[i] + c.timeout ==>
        u.buffer == [] && u.out == t.out + [t.buffer + if e.Arrive? then [e.message] else []]
  {
    hide ShouldFlush, Waiting, Clock;
    WaitingInTime(c, start, events);
    Conserved(c, start, events);
    assert (events + [e])[..|events|] == events;
    var t := Run(c, start, events);
    assert t.buffer + [] == t.buffer;
  }

  // ---- When a batch leaves, from what came in and what went out ----

  /** The regular messages received and not sent yet. */
  function Unsent(c: Config, start: nat, events: seq<Event>): seq<Message> {
    var regular, sent := Keep(Inputs(events), false), Keep(Flatten(Run(c, start, events).out), false);
    if |sent| <= |regular| then regular[|sent|..] else []
  }

  /** The clock after the last event at which a regular batch was sent. */
  function LastSent(c: Config, start: nat, events: seq<Event>): nat {
    if events == [] then start
    else
      var k, e := |events| - 1, events[|events| - 1];
      var sent := |Run(c, start, events).out| > |Run(c, start, events[..k]).out|;
      match e
      case Arrive(m, _, after) =>
        if sent && m.priority != Emergency then after else LastSent(c, start, events[..k])
      case Timer(_, after) => if sent then after else LastSent(c, start, events[..k])
      case Close => LastSent(c, start, events[..k])
  }

  /** The places of the safety-critical messages. */
  ghost function CriticalAt(b: seq<Message>): set<int> {
    set i | 0 <= i < |b| && b[i].priority == SafetyCritical
  }

  lemma {:induction false} CriticalCount(b: seq<Message>)
    ensures |CriticalAt(b)| == Total(b, SafetyCritical1)
  {
    if b != [] {
      var k := |b| - 1;
      CriticalCount(b[..k]);
      assert CriticalAt(b) == CriticalAt(b[..k]) + if b[k].priority == SafetyCritical then {k} else {};
    }
  }

  lemma {:induction false} BufferIsUnsent(c: Config, start: nat, events: seq<Event>)
    ensures var t := Run(c, start, events);
      t.buffer == Unsent(c, start, events) && t.lastFlush == LastSent(c, start, events)
  {
    hide Keep, Flatten, ShouldFlush, Inputs, SpreadMs;
    Conserved(c, start, events);
    var t := Run(c, start, events);
    var sent := Keep(Flatten(t.out), false);
    assert (sent + t.buffer)[|sent|..] == t.buffer;
    if events != [] {
      BufferIsUnsent(c, start, events[..|events| - 1]);
    }
  }

  /** Over every run, what one more event sends. With w the regular messages not sent yet: an emergency goes alone at
      once; a regular message goes with w exactly when it makes up a full batch, is the fifth safety-critical one, is
      over the spread threshold, or comes a timeout or more after the last batch, and otherwise it waits and nothing
      is sent; the timer sends w exactly when there is any and the timeout is over; closing sends nothing. */
  lemma SendsExactly(c: Config, start: nat, events: seq<Event>, e: Event)
    requires Close !in events
    ensures var out, out' := Run(c, start, events).out, Run(c, start, events + [e]).out;
      var w, last := Unsent(c, start, events), LastSent(c, start, events);
      && (e.Arrive? && e.message.priority == Emergency ==> out' == out + [[e.message]])
      && (e.Arrive? && e.message.priority != Emergency ==>
            out' == out +
              if || |w| + 1 >= c.maxBatchSize
                 || |CriticalAt(w + [e.message])| >= 5
                 || SpreadMs(e.message) > c.spreadThresholdMs
                 || e.now - last >= c.timeout
              then [w + [e.message]] else [])
      && (e.Timer? ==> out' == out + if w != [] && e.now >= last + c.timeout then [w] else [])
      && (e.Close? ==> out' == out)
    ensures var w := Unsent(c, start, events);
      Unsent(c, start, events + [e]) ==
        if e.Arrive? && e.message.priority == Emergency then w
        else if |Run(c, start, events + [e]).out| > |Run(c, start, events).out| then []
        else if e.Arrive? then w + [e.message] else w
  {
    hide Keep, Flatten, Inputs, SpreadMs, Unsent, LastSent;
    BufferIsUnsent(c, start, events);
    BufferIsUnsent(c, start, events + [e]);
    Conserved(c, start, events);
    assert (events + [e])[..|events|] == events;
    var t := Run(c, start, events);
    assert t.out + [] == t.out;
    if e.Arrive? {
      var b := t.buffer + [e.message];
      CriticalCount(b);
      assert b[|b| - 1] == e.message;
    }
  }

  /** Nothing is sent once the channel has closed. */
  lemma SilentOnceClosed(c: Config, start: nat, events: seq<Event>, e: Event)
    requires Close in events
    ensures Run(c, start, events + [e]).out == Run(c, start, events).out
  {
    Conserved(c, start, events);
    assert (events + [e])[..|events|] == events;
  }

  /** The batching loop, one wake-up at a time. */
  class BatchTask {
    const config: Config
    var buffer: seq<Message>
    var lastFlush: nat
    var out: seq<seq<Message>>

    function View(): Task
      reads this
    {
      Task(buffer, lastFlush, out, false)
    }

    constructor (config: Config, now: nat)
      ensures View() == Started(now) && this.config == config
    {
      this.config := config;
      buffer, lastFlush, out := [], now, [];
    }

    /** The scan that decides on an early flush. */
    method CheckFlush() returns (flush: bool)
      ensures flush == ShouldFlush(config, buffer)
    {
      var count := 0;
      for i := 0 to |buffer|
        invariant count == Total(buffer[..i], SafetyCritical1)
      {
        if buffer[i].priority == SafetyCritical {
          count := count + 1;
        }
        assert buffer[..i + 1][..i] == buffer[..i];
      }
      assert buffer[..|buffer|] == buffer;
      if count >= 5 {
        return true;
      }
      for i := 0 to |buffer|
        invariant forall j :: 0 <= j < i ==> !OverThreshold(config, buffer[j])
      {
        if OverThreshold(config, buffer[i]) {
          return true;
        }
      }
      return false;
    }

    method OnMessage(m: Message, now: nat, after: nat)
      modifies this
      ensures View() == Step(config, old(View()), Arrive(m, now, after))
    {
      if m.priority == Emergency {
        out := out + [[m]];
      } else {
        buffer := buffer + [m];
        var early := CheckFlush();
        if |buffer| >= config.maxBatchSize || now - lastFlush >= config.timeout || early {
          var batch := buffer;
          buffer := [];
          if batch != [] {
            out := out + [batch];
          }
          lastFlush := after;
        }
      }
    }

    method OnTimer(now: nat, after: nat)
      requires now >= lastFlush + config.timeout
      modifies this
      ensures View() == Step(config, old(View()), Timer(now, after))
    {
      if buffer != [] {
        out := out + [buffer];
        buffer := [];
        lastFlush := after;
      }
    }
  }
}

/** The coalescing task in front of the uplink (src/transmission_batcher.rs). */
module Transmission {
  import opened Bytes

  datatype Config = Config(maxBatchSize: nat, timeout: nat)

  datatype Task<T> = Task(buffer: seq<T>, lastFlush: nat, out: seq<seq<T>>, closed: bool)

  datatype Event<T> = Arrive(message: T, now: nat, after: nat) | Timer(now: nat, after: nat) | Close

  function Step<T>(c: Config, t: Task<T>, e: Event<T>): Task<T> {
    if t.closed then t
    else
      match e
      case Arrive(m, now, after) =>
        var buffer := t.buffer + [m];
        if |buffer| >= c.maxBatchSize || now - t.lastFlush >= c.timeout
        then Task([], after, t.out + [buffer], false)
        else t.(buffer := buffer)
      case Timer(now, after) =>
        if now >= t.lastFlush + c.timeout && |t.buffer| > 0 then Task([], after, t.out + [t.buffer], false) else t
      case Close =>
        Task([], t.lastFlush, if |t.buffer| > 0 then t.out + [t.buffer] else t.out, true)
  }

  function Run<T(==)>(c: Config, start: nat, events: seq<Event<T>>): Task<T> {
    if events == [] then Task([], start, [], false)
    else Step(c, Run(c, start, events[..|events| - 1]), events[|events| - 1])
  }

  function Inputs<T(==)>(events: seq<Event<T>>): seq<T> {
    if events == [] then []
    else
      var before := Inputs(events[..|events| - 1]);
      var e := events[|events| - 1];
      if e.Arrive? && Close !in events[..|events| - 1] then before + [e.message] else before
  }

  function Cap(c: Config): nat {
    if c.maxBatchSize >= 1 then c.maxBatchSize else 1
  }

  ghost predicate Inv<T>(c: Config, t: Task<T>, inputs: seq<T>) {
    && Flatten(t.out) + t.buffer == inputs && |t.buffer| < Cap(c) && (t.closed ==> t.buffer == [])
    && forall i :: 0 <= i < |t.out| ==> 1 <= |t.out[i]| <= Cap(c)
  }

  lemma StepKeeps<T>(c: Config, t: Task<T>, inputs: seq<T>, e: Event<T>)
    requires Inv(c, t, inputs)
    ensures Inv(c, Step(c, t, e), if e.Arrive? && !t.closed then inputs + [e.message] else inputs)
  {
    hide Flatten;
    if !t.closed {
      FlattenSnoc(t.out, t.buffer);
      assert Flatten(t.out) + t.buffer + [] == Flatten(t.out) + t.buffer;
      if e.Arrive? {
        FlattenSnoc(t.out, t.buffer + [e.message]);
        assert Flatten(t.out) + (t.buffer + [e.message]) == Flatten(t.out) + t.buffer + [e.message];
      }
    }
  }

  lemma {:induction false} Conserved<T>(c: Config, start: nat, events: seq<Event<T>>)
    ensures Inv(c, Run(c, start, events), Inputs(events))
    ensures Run(c, start, events).closed <==> Close in events
  {
    hide Inv, Step;
    if events == [] {
      StartKeeps<T>(c, start);
    } else {
      var k := |events| - 1;
      Conserved(c, start, events[..k]);
      StepKeeps(c, Run(c, start, events[..k]), Inputs(events[..k]), events[k]);
      ClosedStep(c, Run(c, start, events[..k]), events[k]);
      assert events == events[..k] + [events[k]];
    }
  }

  lemma StartKeeps<T>(c: Config, start: nat)
    ensures Inv<T>(c, Task([], start, [], false), [])
  {
  }

  lemma ClosedStep<T>(c: Config, t: Task<T>, e: Event<T>)
    ensures Step(c, t, e).closed <==> t.closed || e == Close
  {
  }

  /** Once the channel has closed, everything received before was sent, in order, in batches of at least one message and
      at most the cap. */
  lemma NothingLost<T>(c: Config, start: nat, events: seq<Event<T>>)
    requires Close in events
    ensures Flatten(Run(c, start, events).out) == Inputs(events)
    ensures forall i :: 0 <= i < |Run(c, start, events).out| ==> 1 <= |Run(c, start, events).out[i]| <= Cap(c)
  {
    Conserved(c, start, events);
    var t := Run(c, start, events);
    assert Flatten(t.out) + [] == Flatten(t.out);
  }

  // ---- When a batch leaves, from what came in and what went out ----

  /** The messages received and not sent yet. */
  function Unsent<T(==)>(c: Config, start: nat, events: seq<Event<T>>): seq<T> {
    var sent := |Flatten(Run(c, start, events).out)|;
    if sent <= |Inputs(events)| then Inputs(events)[sent..] else []
  }

  /** The clock after the last event, other than closing, at which a batch was sent. */
  function LastSent<T(==)>(c: Config, start: nat, events: seq<Event<T>>): nat {
    if events == [] then start
    else
      var k, e := |events| - 1, events[|events| - 1];
      if e != Close && |Run(c, start, events).out| > |Run(c, start, events[..k]).out| then e.after
      else LastSent(c, start, events[..k])
  }

  lemma {:induction false} BufferIsUnsent<T>(c: Config, start: nat, events: seq<Event<T>>)
    ensures var t := Run(c, start, events);
      t.buffer == Unsent(c, start, events) && t.lastFlush == LastSent(c, start, events)
  {
    hide Flatten, Inputs;
    Conserved(c, start, events);
    var t := Run(c, start, events);
    assert (Flatten(t.out) + t.buffer)[|Flatten(t.out)|..] == t.buffer;
    if events != [] {
      BufferIsUnsent(c, start, events[..|events| - 1]);
    }
  }

  /** Over every run, what one more event sends. With w the messages not sent yet: a message goes with w exactly when it
      makes up a full batch or comes a timeout or more after the last batch, and otherwise it waits and nothing is
      sent; the timer sends w exactly when there is any and the timeout is over; closing sends what there is. */
  lemma SendsExactly<T>(c: Config, start: nat, events: seq<Event<T>>, e: Event<T>)
    requires Close !in events
    ensures var out, out' := Run(c, start, events).out, Run(c, start, events + [e]).out;
      var w, last := Unsent(c, start, events), LastSent(c, start, events);
      && (e.Arrive? ==>
            out' == out + if |w| + 1 >= c.maxBatchSize || e.now - last >= c.timeout then [w + [e.message]] else [])
      && (e.Timer? ==> out' == out + if w != [] && e.now >= last + c.timeout then [w] else [])
      && (e.Close? ==> out' == out + if w != [] then [w] else [])
    ensures var w := Unsent(c, start, events);
      Unsent(c, start, events + [e]) ==
        if |Run(c, start, events + [e]).out| > |Run(c, start, events).out| then []
        else if e.Arrive? then w + [e.message] else w
  {
    hide Flatten, Inputs, Unsent, LastSent;
    BufferIsUnsent(c, start, events);
    BufferIsUnsent(c, start, events + [e]);
    Conserved(c, start, events);
    assert (events + [e])[..|events|] == events;
    var t := Run(c, start, events);
    assert t.out + [] == t.out;
  }

  /** Nothing is sent once the channel has closed. */
  lemma SilentOnceClosed<T>(c: Config, start: nat, events: seq<Event<T>>, e: Event<T>)
    requires Close in events
    ensures Run(c, start, events + [e]).out == Run(c, start, events).out
  {
    Conserved(c, start, events);
    assert (events + [e])[..|events|] == events;
  }

  class TransmissionTask<T(==)> {
    const config: Config
    var buffer: seq<T>
    var lastFlush: nat
    var out: seq<seq<T>>
    var closed: bool

    function View(): Task<T>
      reads this
    {
      Task(buffer, lastFlush, out, closed)
    }

    constructor (config: Config, now: nat)
      ensures View() == Task([], now, [], false) && this.config == config
    {
      this.config := config;
      buffer, lastFlush, out, closed := [], now, [], false;
    }

    method OnMessage(m: T, now: nat, after: nat)
      requires !closed
      modifies this
      ensures View() == Step(config, old(View()), Arrive(m, now, after))
    {
      buffer := buffer + [m];
      if |buffer| >= config.maxBatchSize || now - lastFlush >= config.timeout {
        out := out + [buffer];
        buffer := [];
        lastFlush := after;
      }
    }

    method OnTimer(now: nat, after: nat)
      requires !closed && now >= lastFlush + config.timeout
      modifies this
      ensures View() == Step(config, old(View()), Timer(now, after))
    {
      if |buffer| > 0 {
        out := out + [buffer];
        buffer := [];
        lastFlush := after;
      }
    }

    method OnClose()
      requires !closed
      modifies this
      ensures View() == Step(config, old(View()), Close)
    {
      if |buffer| > 0 {
        out := out + [buffer];
      }
      buffer := [];
      closed := true;
    }
  }
}
