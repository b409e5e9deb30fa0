/** The partition of incoming batches into spread and normal messages (src/gateway.rs, process_incoming_batch),
    after clock reconciliation. */
module Routing {
  import opened Bytes
  import opened Protocols
  import Cadence
  import Ewma

  /** A message and the clock when its turn comes. */
  datatype Item = Item(message: Message, now: int)

  datatype State = State(ewma: map<Protocol, Ewma.Ewma>, limiters: Cadence.Limiters)

  function EwmaOf(s: State, p: Protocol): Ewma.Ewma {
    if p in s.ewma then s.ewma[p] else Ewma.FRESH
  }

  predicate Burst(s: State, m: Message) {
    Ewma.Routed(EwmaOf(s, m.protocol), BurstThresholdMs(m.protocol), SpreadMs(m))
  }

  predicate Paced(m: Message) {
    m.protocol == IridiumSBD && m.priority != Emergency
  }

  function Repeat(m: Message, n: nat): (r: seq<Message>)
    ensures |r| == n && forall i :: 0 <= i < n ==> r[i] == m
  {
    seq(n, _ => m)
  }

  function CopiesOf(a: Cadence.Action): nat {
    match a
    case Drop => 0
    case Copies(n) => n
    case Send => 1
    case Buffer(_) => 1
  }

  /** One message: the state after it, what goes to the spread shard, and what goes on normally. */
  function Step(rules: seq<Cadence.Rule>, s: State, x: Item): (State, seq<Message>, seq<Message>) {
    var m := x.message;
    var ewma := s.ewma[m.protocol := Ewma.Updated(EwmaOf(s, m.protocol), SpreadMs(m))];
    if Burst(s, m) then (s.(ewma := ewma), [m], [])
    else if Paced(m) then
      var (ls, action) := Cadence.Translate(rules, s.limiters, "telemetry", IridiumSBD, m.priority, x.now);
      (State(ewma, ls), [], Repeat(m, CopiesOf(action)))
    else (s.(ewma := ewma), [], [m])
  }

  /** A batch, message by message. */
  function Route(rules: seq<Cadence.Rule>, s: State, batch: seq<Item>): (State, seq<Message>, seq<Message>) {
    if batch == [] then (s, [], [])
    else
      var (s1, spread, normal) := Route(rules, s, batch[..|batch| - 1]);
      var (s2, spread', normal') := Step(rules, s1, batch[|batch| - 1]);
      (s2, spread + spread', normal + normal')
  }

  class Router {
    const cadence: Cadence.CadenceTranslator
    var ewma: map<Protocol, Ewma.Ewma>

    function View(): State
      reads this, cadence
    {
      State(ewma, cadence.limiters)
    }

    constructor (cadence: Cadence.CadenceTranslator)
      ensures this.cadence == cadence && ewma == map[]
    {
      this.cadence := cadence;
      ewma := map[];
    }

    /** The body of the partition loop. */
    method RouteOne(x: Item) returns (spread: seq<Message>, normal: seq<Message>)
      modifies this, cadence
      ensures cadence.rules == old(cadence.rules)
      ensures (View(), spread, normal) == Step(cadence.rules, old(View()), x)
    {
      spread, normal := [], [];
      var m := x.message;
      assert Repeat(m, 0) == [] && Repeat(m, 1) == [m];
      var e := if m.protocol in ewma then ewma[m.protocol] else Ewma.FRESH;
      e := Ewma.Updated(e, SpreadMs(m));
      ewma := ewma[m.protocol := e];
      var threshold := Ewma.Threshold(e, BurstThresholdMs(m.protocol));
      if SpreadMs(m) > threshold {
        spread := [m];
      } else if m.protocol == IridiumSBD && m.priority != Emergency {
        var action := cadence.TranslateMessage("telemetry", IridiumSBD, m.priority, x.now);
        match action {
          case Drop =>
          case Copies(count) =>
            for k := 0 to count
              invariant normal == Repeat(m, k)
            {
              normal := normal + [m];
            }
          case Send => normal := [m];
          case Buffer(_) => normal := [m];
        }
      } else {
        normal := [m];
      }
    }

    /** The partition loop. */
    method Partition(batch: seq<Item>) returns (spread: seq<Message>, normal: seq<Message>)
      modifies this, cadence
      ensures cadence.rules == old(cadence.rules)
      ensures (View(), spread, normal) == Route(cadence.rules, old(View()), batch)
    {
      hide Step;
      spread, normal := [], [];
      for i := 0 to |batch|
        invariant cadence.rules == old(cadence.rules)
        invariant (View(), spread, normal) == Route(cadence.rules, old(View()), batch[..i])
      {
        var p, q := RouteOne(batch[i]);
        spread, normal := spread + p, normal + q;
        assert batch[..i + 1][..i] == batch[..i];
      }
      assert batch[..|batch|] == batch;
    }
  }

  // ---- Batching does not matter ----

  lemma {:induction false} RouteConcat(rules: seq<Cadence.Rule>, s: State, a: seq<Item>, b: seq<Item>)
    ensures var (s1, p1, q1) := Route(rules, s, a); var (s2, p2, q2) := Route(rules, s1, b);
      Route(rules, s, a + b) == (s2, p1 + p2, q1 + q2)
  {
    hide Step;
    if b == [] {
      var (_, p1, q1) := Route(rules, s, a);
      assert a + b == a && p1 + [] == p1 && q1 + [] == q1;
    } else {
      var k := |b| - 1;
      RouteConcat(rules, s, a, b[..k]);
      assert (a + b)[..|a + b| - 1] == a + b[..k];
      var (s1, p1, q1) := Route(rules, s, a);
      var (s2, p2, q2) := Route(rules, s1, b[..k]);
      var (_, p3, q3) := Step(rules, s2, b[k]);
      assert (p1 + p2) + p3 == p1 + (p2 + p3) && (q1 + q2) + q3 == q1 + (q2 + q3);
    }
  }

  /** A stream handed over in batches. */
  function RouteBatches(rules: seq<Cadence.Rule>, s: State, batches: seq<seq<Item>>)
    : (State, seq<Message>, seq<Message>)
  {
    if batches == [] then (s, [], [])
    else
      var (s1, p1, q1) := RouteBatches(rules, s, batches[..|batches| - 1]);
      var (s2, p2, q2) := Route(rules, s1, batches[|batches| - 1]);
      (s2, p1 + p2, q1 + q2)
  }

  /** However a stream is cut into batches, and whatever the rules, the outputs and the final state are those of the
      whole stream. */
  lemma {:induction false} BatchingIrrelevant(rules: seq<Cadence.Rule>, s: State, batches: seq<seq<Item>>)
    ensures RouteBatches(rules, s, batches) == Route(rules, s, Flatten(batches))
  {
    if batches != [] {
      var k := |batches| - 1;
      BatchingIrrelevant(rules, s, batches[..k]);
      RouteConcat(rules, s, Flatten(batches[..k]), batches[k]);
    }
  }

  // ---- Nothing is lost, nothing is mixed up ----

  /** Copies of a message that goes on normally, under the default rules. */
  function NormalCopies(m: Message): nat {
    if m.protocol == IridiumSBD && m.priority != Emergency then 60 else 1
  }

  lemma DefaultStep(s: State, x: Item)
    ensures var m := x.message; var (t, p, q) := Step(Cadence.DefaultRules(), s, x);
      && t == s.(ewma := s.ewma[m.protocol := Ewma.Updated(EwmaOf(s, m.protocol), SpreadMs(m))])
      && p == (if Burst(s, m) then [m] else []) && q == (if Burst(s, m) then [] else Repeat(m, NormalCopies(m)))
  {
    if Paced(x.message) {
      Cadence.DefaultActions(s.limiters, "telemetry", IridiumSBD, x.message.priority, x.now);
    }
    assert Repeat(x.message, 1) == [x.message];
  }

  /** The state in which message i of a batch is decided. */
  function StateAt(s: State, batch: seq<Item>, i: nat): State
    requires i <= |batch|
  {
    Route(Cadence.DefaultRules(), s, batch[..i]).0
  }

  /** The messages whose flag is set, in order; and the others, in order, each repeated as the rules say. */
  function Flagged(batch: seq<Item>, flags: seq<bool>): seq<Message>
    requires |flags| == |batch|
  {
    if batch == [] then []
    else
      var k := |batch| - 1;
      Flagged(batch[..k], flags[..k]) + (if flags[k] then [batch[k].message] else [])
  }

  function Expanded(batch: seq<Item>, flags: seq<bool>): seq<Message>
    requires |flags| == |batch|
  {
    if batch == [] then []
    else
      var k := |batch| - 1;
      var m := batch[k].message;
      Expanded(batch[..k], flags[..k]) + (if flags[k] then [] else Repeat(m, NormalCopies(m)))
  }

  /** With the default rules, the spread output is the ordered subsequence of burst messages and the normal output the
      ordered expansion of the others: sixty copies of Iridium messages, one of the rest. */
  lemma {:induction false} OrderedPartition(s: State, batch: seq<Item>, flags: seq<bool>)
    requires |flags| == |batch|
    requires forall i :: 0 <= i < |batch| ==> flags[i] == Burst(StateAt(s, batch, i), batch[i].message)
    ensures var (_, spread, normal) := Route(Cadence.DefaultRules(), s, batch);
      spread == Flagged(batch, flags) && normal == Expanded(batch, flags)
  {
    hide Step, Burst;
    if batch != [] {
      var k := |batch| - 1;
      forall i | 0 <= i < k ensures flags[..k][i] == Burst(StateAt(s, batch[..k], i), batch[..k][i].message) {
        assert batch[..k][..i] == batch[..i];
      }
      OrderedPartition(s, batch[..k], flags[..k]);
      DefaultStep(StateAt(s, batch, k), batch[k]);
    }
  }

  function Count(ms: seq<Message>, m: Message): nat {
    if ms == [] then 0 else Count(ms[..|ms| - 1], m) + (if ms[|ms| - 1] == m then 1 else 0)
  }

  lemma {:induction false} CountConcat(a: seq<Message>, b: seq<Message>, m: Message)
    ensures Count(a + b, m) == Count(a, m) + Count(b, m)
  {
    if b == [] {
      assert a + b == a;
    } else {
      CountConcat(a, b[..|b| - 1], m);
      assert (a + b)[..|a + b| - 1] == a + b[..|b| - 1];
    }
  }

  lemma {:induction false} CountRepeat(x: Message, n: nat, m: Message)
    ensures Count(Repeat(x, n), m) == if x == m then n else 0
  {
    if n > 0 {
      CountRepeat(x, n - 1, m);
      assert Repeat(x, n)[..n - 1] == Repeat(x, n - 1);
    }
  }

  function CountItems(batch: seq<Item>, m: Message): nat {
    if batch == [] then 0 else CountItems(batch[..|batch| - 1], m) + (if batch[|batch| - 1].message == m then 1 else 0)
  }

  lemma StepCount(s: State, x: Item, m: Message)
    ensures var (_, p, q) := Step(Cadence.DefaultRules(), s, x);
      Count(q, m) == ((if x.message == m then 1 else 0) - Count(p, m)) * NormalCopies(m)
  {
    hide Step, Burst, Paced;
    DefaultStep(s, x);
    CountOne(x.message, m);
    CountRepeat(x.message, NormalCopies(x.message), m);
  }

  lemma Distribute(a: int, b: int, n: int)
    ensures a * n + b * n == (a + b) * n
  {
  }

  /** Every message of a batch is accounted for: each occurrence is either in the spread output once or in the normal
      output with all its copies. */
  lemma {:induction false} NothingLost(s: State, batch: seq<Item>, m: Message)
    ensures var (_, spread, normal) := Route(Cadence.DefaultRules(), s, batch);
      Count(normal, m) == (CountItems(batch, m) - Count(spread, m)) * NormalCopies(m)
  {
    hide Step, Burst, NormalCopies, Count;
    if batch == [] {
      CountOne(m, m);
    } else {
      var k := |batch| - 1;
      NothingLost(s, batch[..k], m);
      var (s1, spread, normal) := Route(Cadence.DefaultRules(), s, batch[..k]);
      var (_, p, q) := Step(Cadence.DefaultRules(), s1, batch[k]);
      StepCount(s1, batch[k], m);
      CountConcat(spread, p, m);
      CountConcat(normal, q, m);
      var one := if batch[k].message == m then 1 else 0;
      Distribute(CountItems(batch[..k], m) - Count(spread, m), one - Count(p, m), NormalCopies(m));
    }
  }

  lemma CountOne(x: Message, m: Message)
    ensures Count([x], m) == if x == m then 1 else 0
    ensures Count([], m) == 0
  {
    assert [x][..0] == [];
  }

  // ---- Protocols do not disturb one another ----

  function Only(batch: seq<Item>, p: Protocol): seq<Item> {
    if batch == [] then []
    else Only(batch[..|batch| - 1], p) + (if batch[|batch| - 1].message.protocol == p then [batch[|batch| - 1]] else [])
  }

  function OnlyMessages(ms: seq<Message>, p: Protocol): seq<Message> {
    if ms == [] then []
    else OnlyMessages(ms[..|ms| - 1], p) + (if ms[|ms| - 1].protocol == p then [ms[|ms| - 1]] else [])
  }

  lemma {:induction false} OnlyConcat(a: seq<Message>, b: seq<Message>, p: Protocol)
    ensures OnlyMessages(a + b, p) == OnlyMessages(a, p) + OnlyMessages(b, p)
  {
    hide OnlyMessages;
    if b == [] {
      OnlyNone(p);
      assert a + b == a && OnlyMessages(a, p) + [] == OnlyMessages(a, p);
    } else {
      var k := |b| - 1;
      OnlyConcat(a, b[..k], p);
      OnlySnoc(a + b[..k], b[k], p);
      OnlySnoc(b[..k], b[k], p);
      assert a + b == (a + b[..k]) + [b[k]] && b == b[..k] + [b[k]];
    }
  }

  lemma OnlySnoc(ms: seq<Message>, m: Message, p: Protocol)
    ensures OnlyMessages(ms + [m], p) == OnlyMessages(ms, p) + if m.protocol == p then [m] else []
  {
    assert (ms + [m])[..|ms|] == ms;
  }

  lemma OnlyNone(p: Protocol)
    ensures OnlyMessages([], p) == []
  {
  }

  lemma {:induction false} OnlyUniform(ms: seq<Message>, q: Protocol, p: Protocol)
    requires forall i :: 0 <= i < |ms| ==> ms[i].protocol == q
    ensures OnlyMessages(ms, p) == if p == q then ms else []
  {
    if ms != [] {
      OnlyUniform(ms[..|ms| - 1], q, p);
    }
  }

  /** The part of the state that decides the messages of one protocol. */
  ghost predicate Agree(s: State, t: State, p: Protocol) {
    EwmaOf(s, p) == EwmaOf(t, p) && (p == IridiumSBD ==> s.limiters == t.limiters)
  }

  lemma StepLocal(rules: seq<Cadence.Rule>, s: State, t: State, x: Item, p: Protocol)
    requires Agree(s, t, p)
    ensures x.message.protocol != p ==> Agree(Step(rules, s, x).0, t, p)
    ensures x.message.protocol == p ==>
      Agree(Step(rules, s, x).0, Step(rules, t, x).0, p) && Step(rules, s, x).1 == Step(rules, t, x).1 &&
        Step(rules, s, x).2 == Step(rules, t, x).2
    ensures forall i :: 0 <= i < |Step(rules, s, x).1| ==> Step(rules, s, x).1[i].protocol == x.message.protocol
    ensures forall i :: 0 <= i < |Step(rules, s, x).2| ==> Step(rules, s, x).2[i].protocol == x.message.protocol
  {
  }

  /** What happens to one protocol's messages does not depend on the other protocols' messages: route the stream and
      pick out the protocol, or pick it out and route it, the outputs are the same, whatever the rules. */
  lemma {:induction false} ProtocolsIndependent(rules: seq<Cadence.Rule>, s: State, batch: seq<Item>, p: Protocol)
    ensures var (t, spread, normal) := Route(rules, s, batch);
      var (t', spread', normal') := Route(rules, s, Only(batch, p));
      OnlyMessages(spread, p) == spread' && OnlyMessages(normal, p) == normal' && Agree(t, t', p)
  {
    hide Step, Agree, OnlyMessages;
    if batch == [] {
      AgreeReflexive(s, p);
      OnlyUniform([], p, p);
    } else {
      var k := |batch| - 1;
      var x := batch[k];
      ProtocolsIndependent(rules, s, batch[..k], p);
      var (t, spread, normal) := Route(rules, s, batch[..k]);
      var (t', spread', normal') := Route(rules, s, Only(batch[..k], p));
      StepLocal(rules, t, t', x, p);
      var (_, p1, q1) := Step(rules, t, x);
      OnlyConcat(spread, p1, p);
      OnlyConcat(normal, q1, p);
      OnlyUniform(p1, x.message.protocol, p);
      OnlyUniform(q1, x.message.protocol, p);
      if x.message.protocol == p {
        RouteSnoc(rules, s, Only(batch[..k], p), x);
      } else {
        assert Only(batch, p) == Only(batch[..k], p) && spread' + [] == spread' && normal' + [] == normal';
      }
    }
  }

  lemma RouteSnoc(rules: seq<Cadence.Rule>, s: State, batch: seq<Item>, x: Item)
    ensures var (s1, p1, q1) := Route(rules, s, batch); var (s2, p2, q2) := Step(rules, s1, x);
      Route(rules, s, batch + [x]) == (s2, p1 + p2, q1 + q2)
  {
    hide Step;
    assert (batch + [x])[..|batch|] == batch;
  }

  lemma AgreeReflexive(s: State, p: Protocol)
    ensures Agree(s, s, p)
  {
  }

  // ---- The spread rule over a stream ----

  const START := State(map[], map[])

  /** The spreads of one protocol's messages, in order. */
  function SpreadsOf(batch: seq<Item>, p: Protocol): seq<i64> {
    if batch == [] then []
    else
      var m := batch[|batch| - 1].message;
      SpreadsOf(batch[..|batch| - 1], p) + if m.protocol == p then [SpreadMs(m)] else []
  }

  lemma AfterSnoc(e: Ewma.Ewma, spreads: seq<i64>, s: i64)
    ensures Ewma.After(e, spreads + [s]) == Ewma.Updated(Ewma.After(e, spreads), s)
  {
    hide Ewma.Updated;
    assert (spreads + [s])[..|spreads|] == spreads;
  }

  lemma StepEwma(rules: seq<Cadence.Rule>, s: State, x: Item, p: Protocol)
    ensures EwmaOf(Step(rules, s, x).0, p) ==
      if x.message.protocol == p then Ewma.Updated(EwmaOf(s, p), SpreadMs(x.message)) else EwmaOf(s, p)
  {
    hide Ewma.Updated, SpreadMs, Burst;
  }

  /** A protocol's average is that of its own spreads so far, whatever the rules and the other protocols. */
  lemma {:induction false} EwmaIs(rules: seq<Cadence.Rule>, s: State, batch: seq<Item>, p: Protocol)
    ensures EwmaOf(Route(rules, s, batch).0, p) == Ewma.After(EwmaOf(s, p), SpreadsOf(batch, p))
  {
    hide Step, EwmaOf, Ewma.Updated, SpreadMs;
    if batch != [] {
      var k := |batch| - 1;
      EwmaIs(rules, s, batch[..k], p);
      StepEwma(rules, Route(rules, s, batch[..k]).0, batch[k], p);
      AfterSnoc(EwmaOf(s, p), SpreadsOf(batch[..k], p), SpreadMs(batch[k].message));
      assert SpreadsOf(batch[..k], p) + [] == SpreadsOf(batch[..k], p);
    }
  }

  /** Over every stream, whatever the rules: the next message goes to the spread shard exactly when its protocol has
      been heard before, its spread exceeds the protocol's base, and it exceeds the weighted mean of the protocol's
      earlier spreads by more than 57/16 of their weighted deviation. */
  lemma BurstInStream(rules: seq<Cadence.Rule>, batch: seq<Item>, x: Item)
    ensures var m := x.message; var earlier := SpreadsOf(batch, m.protocol);
      Step(rules, Route(rules, START, batch).0, x).1 == [m] <==>
      earlier != [] && SpreadMs(m) > BurstThresholdMs(m.protocol) &&
        SpreadMs(m) as real - Ewma.Mean(earlier) > 57.0 / 16.0 * Ewma.Deviation(earlier)
  {
    hide Ewma.Updated, Ewma.Routed, Ewma.After, Ewma.Mean, Ewma.Deviation;
    hide SpreadMs, BurstThresholdMs, Route, Cadence.Translate;
    var m := x.message;
    var earlier := SpreadsOf(batch, m.protocol);
    EwmaIs(rules, START, batch, m.protocol);
    if earlier == [] {
      assert Ewma.After(Ewma.FRESH, []) == Ewma.FRESH by {
        AfterNone();
      }
      Ewma.FirstNotRouted(BurstThresholdMs(m.protocol), SpreadMs(m));
    } else {
      Ewma.StaysInRange(earlier, -TWO63, TWO63 - 1);
      Ewma.ClosedForm(earlier);
      Ewma.RoutedIff(Ewma.After(Ewma.FRESH, earlier), BurstThresholdMs(m.protocol), SpreadMs(m));
    }
  }

  lemma AfterNone()
    ensures Ewma.After(Ewma.FRESH, []) == Ewma.FRESH
  {
  }

  /** The second message of a protocol goes to the spread shard exactly when its spread exceeds the base and exceeds the
      first spread by more than 57/16 of the first one's size. */
  lemma SecondInStream(rules: seq<Cadence.Rule>, first: Item, x: Item)
    requires x.message.protocol == first.message.protocol
    ensures var m, v := x.message, SpreadMs(first.message);
      Step(rules, Route(rules, START, [first]).0, x).1 == [m] <==>
      SpreadMs(m) > BurstThresholdMs(m.protocol) &&
        (SpreadMs(m) - v) as real > 57.0 / 16.0 * Ewma.Abs(v as real)
  {
    hide Step, Route, SpreadMs, BurstThresholdMs, Ewma.Mean, Ewma.Deviation;
    var v := SpreadMs(first.message);
    BurstInStream(rules, [first], x);
    assert SpreadsOf([first], x.message.protocol) == [v] by {
      assert [first][..0] == [];
    }
    Ewma.ClosedForm([v]);
    Ewma.ConstantDeviation([v], v);
    assert Ewma.Decay(0) == 1.0;
  }

  /** The base of each protocol: once a message of it has come without spread, the next one goes to the spread shard
      exactly when its spread exceeds this many milliseconds. */
  lemma BurstBases(rules: seq<Cadence.Rule>, first: Item, x: Item)
    requires x.message.protocol == first.message.protocol && SpreadMs(first.message) == 0
    ensures var m := x.message;
      Step(rules, Route(rules, START, [first]).0, x).1 == [m] <==>
      SpreadMs(m) >
        match m.protocol
        case ASTSpaceMobile => 1_000
        case VSAT => 3_000
        case Samsara => 5_000
        case NIDD => 10_000
        case HFVHF => 30_000
        case LoRaMesh => 60_000
        case IridiumSBD => 120_000
        case RockBLOCK => 120_000
        case InmarsatC => 300_000
  {
    hide Step, Route, SpreadMs;
    SecondInStream(rules, first, x);
  }

  ghost predicate ConstantSpread(batch: seq<Item>, p: Protocol, v: i64) {
    forall i :: 0 <= i < |batch| && batch[i].message.protocol == p ==> SpreadMs(batch[i].message) == v
  }

  lemma {:induction false} ConstantSpreads(batch: seq<Item>, p: Protocol, v: i64)
    requires ConstantSpread(batch, p, v)
    ensures forall i :: 0 <= i < |SpreadsOf(batch, p)| ==> SpreadsOf(batch, p)[i] == v
  {
    hide SpreadMs;
    if batch != [] {
      ConstantSpreads(batch[..|batch| - 1], p, v);
    }
  }

  /** A protocol whose messages all have one spread never has a message routed to the spread shard. */
  lemma {:induction false} ConstantNeverRouted(rules: seq<Cadence.Rule>, batch: seq<Item>, p: Protocol, v: i64)
    requires ConstantSpread(batch, p, v)
    ensures OnlyMessages(Route(rules, START, batch).1, p) == []
  {
    hide Ewma.Updated, Ewma.Routed, Ewma.After, SpreadMs, BurstThresholdMs, Cadence.Translate, SpreadsOf;
    if batch != [] {
      var k := |batch| - 1;
      ConstantNeverRouted(rules, batch[..k], p, v);
      var (s, spread, _) := Route(rules, START, batch[..k]);
      var (_, p1, _) := Step(rules, s, batch[k]);
      OnlyConcat(spread, p1, p);
      OnlyUniform(p1, batch[k].message.protocol, p);
      if batch[k].message.protocol == p {
        EwmaIs(rules, START, batch[..k], p);
        ConstantSpreads(batch[..k], p, v);
        Ewma.ConstantNotRouted(SpreadsOf(batch[..k], p), v, BurstThresholdMs(p));
      }
    }
  }

  // ---- What the cadence rules do to a stream ----

  /** The messages of a stream that were put to the cadence rules: Iridium messages that are neither emergencies nor
      routed to the spread shard. */
  function Asked(rules: seq<Cadence.Rule>, batch: seq<Item>): seq<Cadence.Call> {
    if batch == [] then []
    else
      var k := |batch| - 1;
      var x := batch[k];
      Asked(rules, batch[..k]) +
        if Paced(x.message) && Step(rules, Route(rules, START, batch[..k]).0, x).1 == []
        then [Cadence.Call("telemetry", IridiumSBD, x.message.priority, x.now)] else []
  }

  lemma AskedSnoc(rules: seq<Cadence.Rule>, calls: seq<Cadence.Call>, x: Cadence.Call)
    ensures Cadence.After(rules, calls + [x]) == Cadence.Answer(rules, Cadence.After(rules, calls), x).0
  {
    hide Cadence.Answer;
    assert (calls + [x])[..|calls|] == calls;
  }

  lemma {:induction false} LimitersTrack(rules: seq<Cadence.Rule>, batch: seq<Item>)
    ensures Route(rules, START, batch).0.limiters == Cadence.After(rules, Asked(rules, batch))
  {
    hide Cadence.Translate, Burst, Ewma.Updated, SpreadMs;
    if batch != [] {
      var k := |batch| - 1;
      var m := batch[k].message;
      LimitersTrack(rules, batch[..k]);
      AskedSnoc(rules, Asked(rules, batch[..k]), Cadence.Call("telemetry", IridiumSBD, m.priority, batch[k].now));
      assert Asked(rules, batch[..k]) + [] == Asked(rules, batch[..k]);
    }
  }

  /** Over every stream and for any rules, how often a message that is not routed to the spread shard goes on. One of
      another protocol, an emergency, and one without a telemetry rule: once. Otherwise as the first telemetry rule i
      says: a duplication gives its count, a limit gives one copy if its interval has passed since the last message it
      let through and none if not, the other kinds give one. */
  lemma CopiesInStream(rules: seq<Cadence.Rule>, batch: seq<Item>, x: Item, i: nat)
    requires i < |rules| ==> Cadence.FirstAt(rules, "telemetry", IridiumSBD, i)
    requires i >= |rules| ==> forall j :: 0 <= j < |rules| ==> !Cadence.Applies(rules[j], "telemetry", IridiumSBD)
    requires Step(rules, Route(rules, START, batch).0, x).1 == []
    ensures var m := x.message;
      var out := Step(rules, Route(rules, START, batch).0, x).2;
      var times := Cadence.TimesOf(Asked(rules, batch), "telemetry", IridiumSBD);
      && (forall j :: 0 <= j < |out| ==> out[j] == m)
      && |out| ==
        if m.protocol != IridiumSBD || m.priority == Emergency || i >= |rules| then 1
        else
          match rules[i].transformation
          case Duplicate(n) => n
          case RateLimit(d) => (if Cadence.Spaced(Cadence.Passed(d, times), d, x.now) == Cadence.Send then 1 else 0)
          case Throttle(d) => (if Cadence.Spaced(Cadence.Passed(d, times), d, x.now) == Cadence.Send then 1 else 0)
          case _ => 1
  {
    hide Cadence.Translate, Ewma.Updated, Ewma.Routed, SpreadMs, Route, Asked, Cadence.Passed, Cadence.TimesOf;
    LimitersTrack(rules, batch);
    var call := Cadence.Call("telemetry", IridiumSBD, x.message.priority, x.now);
    Cadence.ActionInRun(rules, Asked(rules, batch), call, i);
  }
}
