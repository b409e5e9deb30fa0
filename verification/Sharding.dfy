/** Admission to the regular shards (src/sharding.rs): as sequential calls, and as interleaved atomic steps. */
module Sharding {
  import opened Bytes

  /** 80% of the capacity of the regular shards, of which there is one less than `numShards`. */
  function BackpressureLimit(numShards: nat, shardSize: nat): nat
    requires numShards >= 1
  {
    (numShards - 1) * shardSize * 8 / 10
  }

  // ---- Interleaved steps ----

  /** Where a caller of `push` stands: between calls, admitted by the counter, holding a shard index,
      or done sending but not yet counted. */
  datatype Pusher = Resting | Admitted | Chosen(shard: nat) | Sent

  /** A caller of `drain_shard` and the messages it has received but not yet subtracted. */
  datatype Drainer = Drainer(shard: nat, count: nat)

  /** The shared counters and channel lengths, the callers, and three running totals: messages ever sent,
      messages taken by workers, and what saturating subtraction failed to subtract. */
  datatype State = State(
    limit: nat, capacity: nat, counter: nat, roundRobin: nat, occupancy: seq<nat>,
    pushers: seq<Pusher>, drainers: seq<Drainer>, everSent: nat, taken: nat, clipped: nat)

  /** One atomic action. A worker receives and never subtracts; a drainer receives one message at a time
      and subtracts its count at the end. */
  datatype Step =
    | Load(i: nat)
    | Select(i: nat)
    | TrySend(i: nat)
    | FetchAdd(i: nat)
    | Open(j: nat, shard: nat)
    | Receive(j: nat)
    | Subtract(j: nat)
    | WorkerReceive(shard: nat)

  function Less(x: nat, y: nat): nat {
    if x >= y then x - y else 0
  }

  /** The state after an action; an action whose turn it is not changes nothing. */
  function Next(s: State, a: Step): State {
    match a
    case Load(i) =>
      if i < |s.pushers| && s.pushers[i].Resting? && s.counter < s.limit
      then s.(pushers := s.pushers[i := Admitted]) else s
    case Select(i) =>
      if i < |s.pushers| && s.pushers[i].Admitted? && |s.occupancy| > 0
      then s.(pushers := s.pushers[i := Chosen(s.roundRobin % |s.occupancy|)], roundRobin := s.roundRobin + 1) else s
    case TrySend(i) =>
      if i < |s.pushers| && s.pushers[i].Chosen? && s.pushers[i].shard < |s.occupancy| then
        var k := s.pushers[i].shard;
        if s.occupancy[k] < s.capacity
        then s.(pushers := s.pushers[i := Sent], occupancy := s.occupancy[k := s.occupancy[k] + 1],
          everSent := s.everSent + 1)
        else s.(pushers := s.pushers[i := Resting])
      else s
    case FetchAdd(i) =>
      if i < |s.pushers| && s.pushers[i].Sent?
      then s.(pushers := s.pushers[i := Resting], counter := s.counter + 1) else s
    case Open(j, k) =>
      if j < |s.drainers| && s.drainers[j].count == 0 then s.(drainers := s.drainers[j := Drainer(k, 0)]) else s
    case Receive(j) =>
      if j < |s.drainers| && s.drainers[j].shard < |s.occupancy| && s.occupancy[s.drainers[j].shard] > 0 then
        var d := s.drainers[j];
        s.(occupancy := s.occupancy[d.shard := s.occupancy[d.shard] - 1],
          drainers := s.drainers[j := d.(count := d.count + 1)])
      else s
    case Subtract(j) =>
      if j < |s.drainers| then
        var d := s.drainers[j];
        s.(counter := Less(s.counter, d.count), clipped := s.clipped + Less(d.count, s.counter),
          drainers := s.drainers[j := d.(count := 0)])
      else s
    case WorkerReceive(k) =>
      if k < |s.occupancy| && s.occupancy[k] > 0
      then s.(occupancy := s.occupancy[k := s.occupancy[k] - 1], taken := s.taken + 1) else s
  }

  function Run(s: State, steps: seq<Step>): State {
    if steps == [] then s else Next(Run(s, steps[..|steps| - 1]), steps[|steps| - 1])
  }

  /** Empty shards, resting callers. */
  ghost predicate Initial(s: State) {
    && s.counter == 0 && s.everSent == 0 && s.taken == 0 && s.clipped == 0
    && (forall k :: 0 <= k < |s.occupancy| ==> s.occupancy[k] == 0)
    && (forall i :: 0 <= i < |s.pushers| ==> s.pushers[i] == Resting)
    && (forall j :: 0 <= j < |s.drainers| ==> s.drainers[j].count == 0)
  }

  function Load1(n: nat): nat { n }
  function Drained1(d: Drainer): nat { d.count }
  function Unsent1(p: Pusher): nat { if p.Admitted? || p.Chosen? then 1 else 0 }
  function Sent1(p: Pusher): nat { if p.Sent? then 1 else 0 }

  /** Messages in the regular shards. */
  function Occupancy(s: State): nat { Total(s.occupancy, Load1) }
  /** Messages drained but not yet subtracted. */
  function Drained(s: State): nat { Total(s.drainers, Drained1) }
  /** Messages sent but not yet added. */
  function Pending(s: State): nat { Total(s.pushers, Sent1) }
  /** Callers that passed the gate and have not sent. */
  function Unsent(s: State): nat { Total(s.pushers, Unsent1) }

  /** The exact account of the counter. */
  ghost predicate Balanced(s: State) {
    s.counter + Pending(s) == Occupancy(s) + Drained(s) + s.taken + s.clipped
  }

  /** Passing the gate can overshoot the limit by at most the number of callers. */
  ghost predicate Bounded(s: State) {
    Occupancy(s) + Drained(s) + Unsent(s) <= s.limit - 1 + |s.pushers|
  }

  lemma Busy(s: State)
    ensures Unsent(s) + Pending(s) <= |s.pushers|
  {
    PusherCount(s.pushers);
  }

  lemma {:induction false} PusherCount(p: seq<Pusher>)
    ensures Total(p, Unsent1) + Total(p, Sent1) <= |p|
  {
    if p != [] {
      PusherCount(p[..|p| - 1]);
    }
  }

  lemma PusherMoves(s: State, i: nat, p: Pusher)
    requires i < |s.pushers|
    ensures Total(s.pushers[i := p], Unsent1) + Unsent1(s.pushers[i]) == Unsent(s) + Unsent1(p)
    ensures Total(s.pushers[i := p], Sent1) + Sent1(s.pushers[i]) == Pending(s) + Sent1(p)
  {
    TotalUpdate(s.pushers, i, p, Unsent1);
    TotalUpdate(s.pushers, i, p, Sent1);
  }

  lemma PushKeeps(s: State, a: Step)
    requires Balanced(s) && Bounded(s) && (a.Load? || a.Select? || a.TrySend? || a.FetchAdd?)
    ensures Balanced(Next(s, a)) && Bounded(Next(s, a))
  {
    var t := Next(s, a);
    if t != s {
      PusherMoves(s, a.i, t.pushers[a.i]);
      Busy(t);
      if a.TrySend? {
        var k := s.pushers[a.i].shard;
        TotalUpdate(s.occupancy, k, s.occupancy[k] + 1, Load1);
      }
    }
  }

  lemma DrainKeeps(s: State, a: Step)
    requires Balanced(s) && Bounded(s) && (a.Open? || a.Receive? || a.Subtract? || a.WorkerReceive?)
    ensures Balanced(Next(s, a)) && Bounded(Next(s, a))
  {
    var t := Next(s, a);
    if t != s {
      if a.WorkerReceive? {
        TotalUpdate(s.occupancy, a.shard, s.occupancy[a.shard] - 1, Load1);
      } else {
        var d := s.drainers[a.j];
        TotalUpdate(s.drainers, a.j, t.drainers[a.j], Drained1);
        if a.Receive? {
          TotalUpdate(s.occupancy, d.shard, s.occupancy[d.shard] - 1, Load1);
        }
      }
    }
  }

  /** What every step keeps. */
  lemma NextKeeps(s: State, a: Step)
    requires Balanced(s) && Bounded(s)
    ensures Balanced(Next(s, a)) && Bounded(Next(s, a))
    ensures Next(s, a).limit == s.limit && |Next(s, a).pushers| == |s.pushers|
  {
    if a.Load? || a.Select? || a.TrySend? || a.FetchAdd? {
      PushKeeps(s, a);
    } else {
      DrainKeeps(s, a);
    }
  }

  lemma InitialKeeps(s: State)
    requires Initial(s) && |s.pushers| >= 1
    ensures Balanced(s) && Bounded(s)
  {
    TotalZero(s.occupancy, Load1);
    TotalZero(s.drainers, Drained1);
    TotalZero(s.pushers, Sent1);
    TotalZero(s.pushers, Unsent1);
  }

  lemma {:induction false} RunKeeps(s: State, steps: seq<Step>)
    requires Initial(s) && |s.pushers| >= 1
    ensures Balanced(Run(s, steps)) && Bounded(Run(s, steps))
    ensures Run(s, steps).limit == s.limit && |Run(s, steps).pushers| == |s.pushers|
  {
    if steps == [] {
      InitialKeeps(s);
    } else {
      RunKeeps(s, steps[..|steps| - 1]);
      NextKeeps(Run(s, steps[..|steps| - 1]), steps[|steps| - 1]);
    }
  }

  /** In every interleaving of any number of callers, drainers and workers, the counter together with the adds still
      to come covers what the shards hold and what drainers have yet to subtract; so the shards never hold more
      than the limit, less one, plus one message per concurrent caller. */
  lemma AdmissionBound(s: State, steps: seq<Step>)
    requires Initial(s) && |s.pushers| >= 1
    ensures var t := Run(s, steps); t.counter + Pending(t) >= Occupancy(t) + Drained(t)
    ensures Occupancy(Run(s, steps)) <= s.limit - 1 + |s.pushers|
  {
    RunKeeps(s, steps);
  }

  /** At rest the counter is the number of messages in the shards exactly when no worker ever took one and no
      subtraction was ever clipped. */
  lemma CounterIsOccupancyIff(s: State, steps: seq<Step>)
    requires Initial(s) && |s.pushers| >= 1
    requires var t := Run(s, steps); Pending(t) == 0 && Drained(t) == 0
    ensures var t := Run(s, steps); t.counter == Occupancy(t) <==> t.taken == 0 && t.clipped == 0
  {
    RunKeeps(s, steps);
  }

  // ---- Round robin ----

  /** How often round robin has picked shard k of m in n selections. */
  function Selected(n: nat, m: nat, k: nat): nat
    requires m > 0
  {
    n / m + (if k < n % m then 1 else 0)
  }

  lemma DivModSuccessor(n: nat, m: nat)
    requires m > 0
    ensures n % m + 1 < m ==> (n + 1) / m == n / m && (n + 1) % m == n % m + 1
    ensures n % m + 1 == m ==> (n + 1) / m == n / m + 1 && (n + 1) % m == 0
  {
    var q, r := n / m, n % m;
    assert n == q * m + r;
    if r + 1 < m {
      QuotientUnique(n + 1, m, q, r + 1);
    } else {
      assert n + 1 == (q + 1) * m;
      QuotientUnique(n + 1, m, q + 1, 0);
    }
  }

  /** Each selection goes to the shard at the remainder, and to no other. */
  lemma SelectedStep(n: nat, m: nat, k: nat)
    requires m > 0 && k < m
    ensures Selected(n + 1, m, k) == Selected(n, m, k) + (if k == n % m then 1 else 0)
  {
    DivModSuccessor(n, m);
  }

  /** Any two shards have been picked equally often, up to one. */
  lemma SelectionsBalanced(n: nat, m: nat, j: nat, k: nat)
    requires m > 0 && j < m && k < m
    ensures Selected(n, m, j) <= Selected(n, m, k) + 1
    ensures j <= k ==> Selected(n, m, k) <= Selected(n, m, j)
  {
  }

  /** Below the limit the shard that comes next still has room, and there is a shard. */
  lemma RoomBelowLimit(n: nat, numShards: nat, shardSize: nat)
    requires numShards >= 1 && n < BackpressureLimit(numShards, shardSize)
    ensures numShards >= 2
    ensures var m := numShards - 1; Selected(n, m, n % m) < shardSize
  {
    var m := numShards - 1;
    assert m * shardSize * 8 / 10 <= m * shardSize;
    assert m != 0;
    var q := n / m;
    assert n == q * m + n % m;
    assert q >= shardSize ==> q * m >= shardSize * m;
  }

  // ---- The bound is reached ----

  ghost predicate AllResting(s: State) {
    forall i :: 0 <= i < |s.pushers| ==> s.pushers[i].Resting?
  }

  lemma {:induction false} RunConcat(s: State, a: seq<Step>, b: seq<Step>)
    ensures Run(s, a + b) == Run(Run(s, a), b)
  {
    hide Next;
    if b == [] {
      assert a + b == a;
    } else {
      var k := |b| - 1;
      RunConcat(s, a, b[..k]);
      assert (a + b)[..|a + b| - 1] == a + b[..k];
    }
  }

  /** The shards hold what round robin has dealt out, and nothing has left them. */
  ghost predicate Dealt(s: State) {
    |s.occupancy| > 0 && forall k :: 0 <= k < |s.occupancy| ==>
      s.occupancy[k] == Selected(s.roundRobin, |s.occupancy|, k)
  }

  lemma NextHasRoom(n: nat, m: nat, capacity: nat)
    requires m > 0 && n < m * capacity
    ensures Selected(n, m, n % m) < capacity
  {
    var q := n / m;
    assert n == q * m + n % m;
    assert q >= capacity ==> q * m >= capacity * m;
  }

  lemma DealtStep(s: State, t: State)
    requires Dealt(s) && t.roundRobin == s.roundRobin + 1
    requires var k := s.roundRobin % |s.occupancy|; t.occupancy == s.occupancy[k := s.occupancy[k] + 1]
    ensures Dealt(t)
  {
    hide Selected;
    forall k | 0 <= k < |s.occupancy|
      ensures t.occupancy[k] == Selected(t.roundRobin, |t.occupancy|, k)
    {
      SelectedStep(s.roundRobin, |s.occupancy|, k);
    }
  }

  lemma SelectAndSend(s: State, i: nat)
    requires i < |s.pushers| && s.pushers[i].Admitted? && Dealt(s) && s.roundRobin < |s.occupancy| * s.capacity
    ensures var t := Next(Next(s, Select(i)), TrySend(i));
      && Dealt(t) && t.roundRobin == s.roundRobin + 1 && Occupancy(t) == Occupancy(s) + 1
      && t.pushers == s.pushers[i := Sent] && |t.occupancy| == |s.occupancy|
      && t.counter == s.counter && t.limit == s.limit && t.capacity == s.capacity
  {
    var k := s.roundRobin % |s.occupancy|;
    NextHasRoom(s.roundRobin, |s.occupancy|, s.capacity);
    TotalUpdate(s.occupancy, k, s.occupancy[k] + 1, Load1);
    var u := Next(s, Select(i));
    assert u.pushers[i] == Chosen(k);
    assert s.pushers[i := Chosen(k)][i := Sent] == s.pushers[i := Sent];
    DealtStep(s, Next(u, TrySend(i)));
  }

  function PushSteps(i: nat): seq<Step> {
    [Load(i), Select(i), TrySend(i), FetchAdd(i)]
  }

  lemma RunFour(s: State, a: Step, b: Step, c: Step, d: Step)
    ensures Run(s, [a, b, c, d]) == Next(Next(Next(Next(s, a), b), c), d)
  {
    hide Next;
    assert [a, b, c, d][..3] == [a, b, c] && [a, b, c][..2] == [a, b] && [a, b][..1] == [a] && [a][..0] == [];
    assert Run(s, [a]) == Next(s, a);
    assert Run(s, [a, b]) == Next(Next(s, a), b);
    assert Run(s, [a, b, c]) == Next(Next(Next(s, a), b), c);
  }

  lemma RunTwo(s: State, a: Step, b: Step)
    ensures Run(s, [a]) == Next(s, a)
    ensures Run(s, [a, b]) == Next(Next(s, a), b)
  {
    hide Next;
    assert [a, b][..1] == [a] && [a][..0] == [];
  }

  lemma OnePush(s: State)
    requires |s.pushers| > 0 && s.pushers[0].Resting? && s.counter < s.limit
    requires Dealt(s) && s.roundRobin < |s.occupancy| * s.capacity
    ensures var t := Run(s, PushSteps(0));
      && Dealt(t) && t.roundRobin == s.roundRobin + 1 && Occupancy(t) == Occupancy(s) + 1 && t.counter == s.counter + 1
      && t.pushers == s.pushers && |t.occupancy| == |s.occupancy| && t.limit == s.limit && t.capacity == s.capacity
  {
    hide Dealt;
    RunFour(s, Load(0), Select(0), TrySend(0), FetchAdd(0));
    var u := Next(s, Load(0));
    DealtFrame(s, u);
    SelectAndSend(u, 0);
    var v := Next(Next(u, Select(0)), TrySend(0));
    DealtFrame(v, Next(v, FetchAdd(0)));
    assert s.pushers[0 := Admitted][0 := Sent][0 := Resting] == s.pushers;
  }

  lemma DealtFrame(s: State, t: State)
    requires t.occupancy == s.occupancy && t.roundRobin == s.roundRobin
    ensures Dealt(t) == Dealt(s)
  {
  }

  /** m calls of `push`, one after the other. */
  function Pushes(m: nat): seq<Step> {
    if m == 0 then [] else Pushes(m - 1) + PushSteps(0)
  }

  lemma {:induction false} ManyPushes(s: State, m: nat)
    requires |s.pushers| > 0 && s.pushers[0].Resting? && Dealt(s)
    requires s.counter + m <= s.limit && s.roundRobin + m <= |s.occupancy| * s.capacity
    ensures var t := Run(s, Pushes(m));
      && Dealt(t) && t.roundRobin == s.roundRobin + m && Occupancy(t) == Occupancy(s) + m && t.counter == s.counter + m
      && t.pushers == s.pushers && |t.occupancy| == |s.occupancy| && t.limit == s.limit && t.capacity == s.capacity
  {
    hide Next, Dealt, Occupancy;
    if m > 0 {
      ManyPushes(s, m - 1);
      RunConcat(s, Pushes(m - 1), PushSteps(0));
      OnePush(Run(s, Pushes(m - 1)));
    }
  }

  /** All of the first n callers pass the gate, then all of them send. */
  function Loads(n: nat): seq<Step> {
    if n == 0 then [] else Loads(n - 1) + [Load(n - 1)]
  }

  function Sends(n: nat): seq<Step> {
    if n == 0 then [] else Sends(n - 1) + [Select(n - 1), TrySend(n - 1)]
  }

  lemma {:induction false} ManyLoads(s: State, n: nat)
    requires n <= |s.pushers| && s.counter < s.limit
    requires AllResting(s)
    ensures var t := Run(s, Loads(n));
      && t == s.(pushers := t.pushers) && |t.pushers| == |s.pushers|
      && forall i :: 0 <= i < |t.pushers| ==> t.pushers[i] == if i < n then Admitted else Resting
  {
    hide Run;
    if n > 0 {
      ManyLoads(s, n - 1);
      LoadsSnoc(s, n);
    } else {
      RunNone(s);
    }
  }

  lemma RunNone(s: State)
    ensures Run(s, []) == s
  {
  }

  lemma LoadsSnoc(s: State, n: nat)
    requires n > 0
    ensures Run(s, Loads(n)) == Next(Run(s, Loads(n - 1)), Load(n - 1))
  {
    hide Next;
    RunConcat(s, Loads(n - 1), [Load(n - 1)]);
    RunTwo(Run(s, Loads(n - 1)), Load(n - 1), Load(n - 1));
  }

  lemma {:induction false} ManySends(s: State, n: nat)
    requires n <= |s.pushers| && Dealt(s) && s.roundRobin + n <= |s.occupancy| * s.capacity
    requires forall i :: 0 <= i < |s.pushers| ==> s.pushers[i].Admitted?
    ensures var t := Run(s, Sends(n));
      && Dealt(t) && t.roundRobin == s.roundRobin + n && Occupancy(t) == Occupancy(s) + n &&
        |t.occupancy| == |s.occupancy|
      && t.capacity == s.capacity && |t.pushers| == |s.pushers| && forall i :: n <= i < |t.pushers| ==>
        t.pushers[i].Admitted?
  {
    hide Next, Dealt, Occupancy;
    if n > 0 {
      ManySends(s, n - 1);
      var u := Run(s, Sends(n - 1));
      RunConcat(s, Sends(n - 1), [Select(n - 1), TrySend(n - 1)]);
      RunTwo(u, Select(n - 1), TrySend(n - 1));
      SelectAndSend(u, n - 1);
    }
  }

  /** The most messages the regular shards can hold: the overshoot bound, or all their capacity if that is less. */
  function Peak(s: State): nat
    requires |s.pushers| >= 1
  {
    Min(|s.occupancy| * s.capacity, s.limit - 1 + |s.pushers|)
  }

  lemma {:induction false} TotalWithin(occupancy: seq<nat>, capacity: nat)
    requires forall k :: 0 <= k < |occupancy| ==> occupancy[k] <= capacity
    ensures Total(occupancy, Load1) <= |occupancy| * capacity
  {
    if occupancy != [] {
      TotalWithin(occupancy[..|occupancy| - 1], capacity);
      assert |occupancy| * capacity == (|occupancy| - 1) * capacity + capacity;
    }
  }

  ghost predicate Within(s: State) {
    forall k :: 0 <= k < |s.occupancy| ==> s.occupancy[k] <= s.capacity
  }

  lemma NextWithin(s: State, a: Step)
    requires Within(s)
    ensures var t := Next(s, a); Within(t) && t.capacity == s.capacity && |t.occupancy| == |s.occupancy|
  {
  }

  lemma {:induction false} WithinCapacity(s: State, steps: seq<Step>)
    requires Initial(s)
    ensures var t := Run(s, steps); Within(t) && t.capacity == s.capacity && |t.occupancy| == |s.occupancy|
  {
    if steps != [] {
      hide Next, Within;
      WithinCapacity(s, steps[..|steps| - 1]);
      NextWithin(Run(s, steps[..|steps| - 1]), steps[|steps| - 1]);
    }
  }

  /** The peak is exact, for every number of callers and every configuration with a regular shard and a positive limit:
      no interleaving exceeds it and some interleaving reaches it. */
  lemma AdmissionBoundTight(s: State) returns (steps: seq<Step>)
    requires Initial(s) && s.roundRobin == 0 && |s.pushers| >= 1 && s.limit >= 1 && |s.occupancy| > 0
    ensures forall other :: Occupancy(Run(s, other)) <= Peak(s)
    ensures Occupancy(Run(s, steps)) == Peak(s)
  {
    hide Next;
    forall other ensures Occupancy(Run(s, other)) <= Peak(s) {
      AdmissionBound(s, other);
      WithinCapacity(s, other);
      TotalWithin(Run(s, other).occupancy, s.capacity);
    }
    steps := ReachPeak(s);
  }

  lemma ReachPeak(s: State) returns (steps: seq<Step>)
    requires Initial(s) && s.roundRobin == 0 && |s.pushers| >= 1 && s.limit >= 1 && |s.occupancy| > 0
    ensures Occupancy(Run(s, steps)) == Peak(s)
  {
    var room, n := |s.occupancy| * s.capacity, |s.pushers|;
    var m := Min(s.limit - 1, room);
    var senders := Min(n, room - m);
    steps := Pushes(m) + (Loads(n) + Sends(senders));
    TotalZero(s.occupancy, Load1);
    assert Dealt(s) by {
      NothingDealt(s);
    }
    hide Next, Dealt;
    ManyPushes(s, m);
    var t := Run(s, Pushes(m));
    ManyLoads(t, n);
    var u := Run(t, Loads(n));
    DealtFrame(t, u);
    ManySends(u, senders);
    RunConcat(t, Loads(n), Sends(senders));
    RunConcat(s, Pushes(m), Loads(n) + Sends(senders));
  }

  lemma NothingDealt(s: State)
    requires Initial(s) && s.roundRobin == 0 && |s.occupancy| > 0
    ensures Dealt(s)
  {
    assert forall m: nat :: m > 0 ==> 0 / m == 0 && 0 % m == 0;
  }

  /** A manager as `new` builds it, about to be used by some callers. */
  function Fresh(numShards: nat, shardSize: nat, callers: nat, drainers: nat): State
    requires numShards >= 1
  {
    State(BackpressureLimit(numShards, shardSize), shardSize, 0, 0, seq(numShards - 1, _ => 0),
          seq(callers, _ => Resting), seq(drainers, _ => Drainer(0, 0)), 0, 0, 0)
  }

  /** For the code's own limit: with callers up to the spare capacity plus one, the shards can hold exactly the limit,
      less one, plus the number of callers; with more callers they can be filled to the brim. */
  lemma FreshPeak(numShards: nat, shardSize: nat, callers: nat, drainers: nat) returns (steps: seq<Step>)
    requires numShards >= 2 && callers >= 1 && BackpressureLimit(numShards, shardSize) >= 1
    ensures var s := Fresh(numShards, shardSize, callers, drainers); var room := (numShards - 1) * shardSize;
      && (forall other :: Occupancy(Run(s, other)) <= Occupancy(Run(s, steps)))
      && Occupancy(Run(s, steps)) == if callers <= room - s.limit + 1 then s.limit - 1 + callers else room
  {
    hide Next, Run;
    var s := Fresh(numShards, shardSize, callers, drainers);
    steps := AdmissionBoundTight(s);
  }

  // ---- When the counter is exact ----

  /** The counter, with what is under way, counts the messages in the regular shards. */
  ghost predicate Exact(s: State) {
    s.counter + Pending(s) == Occupancy(s) + Drained(s)
  }

  predicate Receives(a: Step) {
    a.WorkerReceive?
  }

  ghost predicate NoWorker(steps: seq<Step>) {
    forall i :: 0 <= i < |steps| ==> !Receives(steps[i])
  }

  /** No worker takes a message, and nothing is subtracted while a message is sent but not yet counted. */
  ghost predicate Undisturbed(s: State, steps: seq<Step>) {
    steps == [] ||
    (var before, a := steps[..|steps| - 1], steps[|steps| - 1];
     var t := Run(s, before);
     Undisturbed(s, before) && (a.WorkerReceive? ==> Next(t, a) == t) && (a.Subtract? ==> Pending(t) == 0))
  }

  lemma {:induction false} PartOfTotal(drainers: seq<Drainer>, j: nat)
    requires j < |drainers|
    ensures drainers[j].count <= Total(drainers, Drained1)
  {
    if j < |drainers| - 1 {
      PartOfTotal(drainers[..|drainers| - 1], j);
    }
  }

  lemma {:induction false} UndisturbedTotals(s: State, steps: seq<Step>)
    requires Initial(s) && |s.pushers| >= 1 && Undisturbed(s, steps)
    ensures Run(s, steps).taken == 0 && Run(s, steps).clipped == 0
  {
    if steps != [] {
      var before, a := steps[..|steps| - 1], steps[|steps| - 1];
      UndisturbedTotals(s, before);
      RunKeeps(s, before);
      var t := Run(s, before);
      if a.Subtract? && a.j < |t.drainers| {
        PartOfTotal(t.drainers, a.j);
      }
    }
  }

  /** Over every undisturbed run the counter is exact. */
  lemma UndisturbedExact(s: State, steps: seq<Step>)
    requires Initial(s) && |s.pushers| >= 1 && Undisturbed(s, steps)
    ensures Exact(Run(s, steps))
  {
    UndisturbedTotals(s, steps);
    RunKeeps(s, steps);
  }

  /** A worker that takes one message leaves the counter one too high. */
  lemma WorkerDrift(s: State) returns (steps: seq<Step>)
    requires Initial(s) && |s.pushers| >= 1 && s.limit >= 1 && s.capacity >= 1 && |s.occupancy| > 0
    ensures var t := Run(s, steps); AllResting(t) && Occupancy(t) == 0 && t.counter == 1 && t.taken == 1 && !Exact(t)
  {
    steps := PushAndTake(s.roundRobin, |s.occupancy|, 1);
    TakenAtOnce(s, 1);
    RunKeeps(s, steps);
  }

  /** Three steps of a push into an empty shard. */
  function AfterSend(s: State): State
    requires |s.pushers| > 0 && |s.occupancy| > 0
  {
    s.(pushers := s.pushers[0 := Sent], roundRobin := s.roundRobin + 1, everSent := s.everSent + 1,
       occupancy := s.occupancy[s.roundRobin % |s.occupancy| := 1])
  }

  lemma SendsOne(s: State)
    requires |s.pushers| > 0 && s.pushers[0].Resting? && AllEmpty(s)
    requires s.counter < s.limit && s.capacity >= 1 && |s.occupancy| > 0
    ensures Next(Next(Next(s, Load(0)), Select(0)), TrySend(0)) == AfterSend(s)
  {
    var k := s.roundRobin % |s.occupancy|;
    assert s.pushers[0 := Admitted][0 := Chosen(k)][0 := Sent] == s.pushers[0 := Sent];
  }

  lemma DrainOvertakes(s: State, k: nat)
    requires |s.pushers| > 0 && s.pushers[0].Sent? && k < |s.occupancy| && s.occupancy[k] == 1 && s.counter == 0
    requires |s.drainers| > 0 && s.drainers[0].count == 0
    ensures var t := Next(Next(Next(Next(s, Open(0, k)), Receive(0)), Subtract(0)), FetchAdd(0));
      t.counter == 1 && t.clipped == s.clipped + 1 && t.occupancy == s.occupancy[k := 0]
  {
    var t := Next(Next(s, Open(0, k)), Receive(0));
    assert t.drainers[0] == Drainer(k, 1) && t.occupancy == s.occupancy[k := 0] && t.counter == 0 &&
      t.pushers == s.pushers;
  }

  /** A drain that overtakes the count of a push is clipped, and leaves the counter one too high. */
  lemma DrainRace(s: State) returns (steps: seq<Step>)
    requires Initial(s) && |s.pushers| >= 1 && s.limit >= 1 && s.capacity >= 1 && |s.occupancy| > 0 && |s.drainers| > 0
    ensures NoWorker(steps)
    ensures var t := Run(s, steps); t.counter == 1 && t.clipped == 1 && Occupancy(t) == 0 && !Exact(t)
  {
    hide Next;
    var k := s.roundRobin % |s.occupancy|;
    var first, second := [Load(0), Select(0), TrySend(0), Open(0, k)], [Receive(0), Subtract(0), FetchAdd(0)];
    steps := first + second;
    RunFour(s, Load(0), Select(0), TrySend(0), Open(0, k));
    RunConcat(s, first, second);
    RunThree(Run(s, first), Receive(0), Subtract(0), FetchAdd(0));
    SendsOne(s);
    DrainOvertakes(AfterSend(s), k);
    TotalZero(Run(s, steps).occupancy, Load1);
    RunKeeps(s, steps);
  }

  lemma RunThree(s: State, a: Step, b: Step, c: Step)
    ensures Run(s, [a, b, c]) == Next(Next(Next(s, a), b), c)
  {
    hide Next;
    RunTwo(s, a, b);
    assert [a, b, c][..2] == [a, b];
  }

  lemma {:induction false} NoDrainersTotals(s: State, steps: seq<Step>)
    requires Initial(s) && s.drainers == [] && NoWorker(steps)
    ensures var t := Run(s, steps); t.drainers == [] && t.taken == 0 && t.clipped == 0
  {
    if steps != [] {
      assert !Receives(steps[|steps| - 1]);
      NoDrainersTotals(s, steps[..|steps| - 1]);
    }
  }

  /** The counter is exact throughout every run if and only if neither workers nor drainers take part. */
  lemma CounterExactIff(s: State, workers: bool)
    requires Initial(s) && |s.pushers| >= 1 && s.limit >= 1 && s.capacity >= 1 && |s.occupancy| > 0
    ensures (forall steps :: (workers || NoWorker(steps)) ==> Exact(Run(s, steps))) <==> !workers && s.drainers == []
  {
    hide Next, Exact, Initial;
    if workers {
      var steps := WorkerDrift(s);
      assert !Exact(Run(s, steps));
    } else if s.drainers != [] {
      var steps := DrainRace(s);
      assert NoWorker(steps) && !Exact(Run(s, steps));
    } else {
      forall steps | NoWorker(steps) ensures Exact(Run(s, steps)) {
        NoDrainersTotals(s, steps);
        RunKeeps(s, steps);
        ExactFrom(Run(s, steps));
      }
    }
  }

  lemma ExactFrom(s: State)
    requires Balanced(s)
    ensures Exact(s) <==> s.taken == 0 && s.clipped == 0
  {
  }

  // ---- Workers never give capacity back ----

  /** n times: a push, and a worker that takes the message at once. */
  function PushAndTake(roundRobin: nat, m: nat, n: nat): seq<Step>
    requires m > 0
  {
    if n == 0 then []
    else PushAndTake(roundRobin, m, n - 1) + (PushSteps(0) + [WorkerReceive((roundRobin + n - 1) % m)])
  }

  ghost predicate AllEmpty(s: State) {
    forall k :: 0 <= k < |s.occupancy| ==> s.occupancy[k] == 0
  }

  lemma PushThenTake(s: State)
    requires |s.pushers| > 0 && s.pushers[0].Resting? && AllEmpty(s)
    requires s.counter < s.limit && s.capacity >= 1 && |s.occupancy| > 0
    ensures Run(s, PushSteps(0) + [WorkerReceive(s.roundRobin % |s.occupancy|)]) ==
            s.(counter := s.counter + 1, roundRobin := s.roundRobin + 1, everSent := s.everSent + 1,
              taken := s.taken + 1)
  {
    hide Next;
    var k := s.roundRobin % |s.occupancy|;
    RunConcat(s, PushSteps(0), [WorkerReceive(k)]);
    RunFour(s, Load(0), Select(0), TrySend(0), FetchAdd(0));
    SendsOne(s);
    CountAndTake(s, k);
    RunTwo(Run(s, PushSteps(0)), WorkerReceive(k), WorkerReceive(k));
  }

  lemma CountAndTake(s: State, k: nat)
    requires |s.pushers| > 0 && s.pushers[0].Resting? && AllEmpty(s) && |s.occupancy| > 0 &&
      k == s.roundRobin % |s.occupancy|
    ensures Next(Next(AfterSend(s), FetchAdd(0)), WorkerReceive(k)) ==
            s.(counter := s.counter + 1, roundRobin := s.roundRobin + 1, everSent := s.everSent + 1,
              taken := s.taken + 1)
  {
    assert s.pushers[0 := Sent][0 := Resting] == s.pushers;
    assert s.occupancy[k := 1][k := 0] == s.occupancy;
  }

  lemma {:induction false} TakenAtOnce(s: State, n: nat)
    requires Initial(s) && |s.pushers| >= 1 && s.capacity >= 1 && |s.occupancy| > 0 && n <= s.limit
    ensures var t := Run(s, PushAndTake(s.roundRobin, |s.occupancy|, n));
      && t == s.(counter := n, roundRobin := s.roundRobin + n, everSent := n, taken := n)
      && AllResting(t) && Occupancy(t) == 0
  {
    TotalZero(s.occupancy, Load1);
    hide Next;
    if n > 0 {
      TakenAtOnce(s, n - 1);
      var t := Run(s, PushAndTake(s.roundRobin, |s.occupancy|, n - 1));
      PushThenTake(t);
      RunConcat(s, PushAndTake(s.roundRobin, |s.occupancy|, n - 1),
        PushSteps(0) + [WorkerReceive((s.roundRobin + n - 1) % |s.occupancy|)]);
    }
  }

  /** The counter is at the limit, callers rest, shards are empty, and no drainer has anything to subtract. */
  ghost predicate Stuck(s: State) {
    && s.counter >= s.limit && AllResting(s) && AllEmpty(s)
    && forall j :: 0 <= j < |s.drainers| ==> s.drainers[j].count == 0
  }

  lemma NextStuck(s: State, a: Step)
    requires Stuck(s)
    ensures Stuck(Next(s, a)) && Next(s, a).everSent == s.everSent
  {
  }

  /** Nothing leads out of such a state: workers and drainers find nothing, so nothing is taken off the counter. */
  lemma {:induction false} StuckForEver(s: State, steps: seq<Step>)
    requires Stuck(s)
    ensures Stuck(Run(s, steps)) && Run(s, steps).everSent == s.everSent
  {
    hide Stuck, Next;
    if steps != [] {
      StuckForEver(s, steps[..|steps| - 1]);
      NextStuck(Run(s, steps[..|steps| - 1]), steps[|steps| - 1]);
    }
  }

  /** The gateway wedges: in every configuration, with any number of callers of `drain_shard`, some run ends with all
      shards empty, all callers at rest, and no continuation in which another message is ever sent. */
  lemma Wedged(s: State) returns (steps: seq<Step>)
    requires Initial(s) && |s.pushers| >= 1 && s.capacity >= 1 && |s.occupancy| > 0
    ensures var t := Run(s, steps); Occupancy(t) == 0 && AllResting(t) && t.everSent == s.limit
    ensures forall more :: Run(Run(s, steps), more).everSent == s.limit
  {
    hide Next;
    steps := PushAndTake(s.roundRobin, |s.occupancy|, s.limit);
    TakenAtOnce(s, s.limit);
    forall more ensures Run(Run(s, steps), more).everSent == s.limit {
      StuckForEver(Run(s, steps), more);
    }
  }

  /** The counter, with the adds still to come, counts every message ever sent, and sends to come stay under the
      limit. */
  ghost predicate CountsSends(s: State) {
    && s.drainers == [] && s.counter + Pending(s) == s.everSent
    && s.everSent + Unsent(s) <= s.limit - 1 + |s.pushers|
  }

  lemma NextCountsSends(s: State, a: Step)
    requires CountsSends(s)
    ensures var t := Next(s, a); CountsSends(t) && t.limit == s.limit && |t.pushers| == |s.pushers|
  {
    var t := Next(s, a);
    if t != s && (a.Load? || a.Select? || a.TrySend? || a.FetchAdd?) {
      PusherMoves(s, a.i, t.pushers[a.i]);
      Busy(t);
    }
  }

  /** Without drains of the regular shards, the counter counts every message ever sent. */
  lemma {:induction false} CounterNeverFalls(s: State, steps: seq<Step>)
    requires Initial(s) && |s.pushers| >= 1 && s.drainers == []
    ensures var t := Run(s, steps); t.drainers == [] && t.limit == s.limit && |t.pushers| == |s.pushers|
    ensures var t := Run(s, steps);
      t.counter + Pending(t) == t.everSent && t.everSent + Unsent(t) <= s.limit - 1 + |s.pushers|
  {
    hide Next;
    if steps == [] {
      TotalZero(s.pushers, Sent1);
      TotalZero(s.pushers, Unsent1);
    } else {
      CounterNeverFalls(s, steps[..|steps| - 1]);
      NextCountsSends(Run(s, steps[..|steps| - 1]), steps[|steps| - 1]);
    }
  }

  /** So however fast the workers empty the shards, no more messages than the limit, less one, plus the number of
      callers are ever sent to them. */
  lemma LifetimeBound(s: State, steps: seq<Step>)
    requires Initial(s) && |s.pushers| >= 1 && s.drainers == []
    ensures Run(s, steps).everSent <= s.limit - 1 + |s.pushers|
  {
    CounterNeverFalls(s, steps);
  }

  /** Once the counter has reached the limit, every later call is refused, whatever the workers take. */
  lemma {:induction false} RefusedForEver(s: State, steps: seq<Step>)
    requires s.drainers == [] && s.counter >= s.limit && AllResting(s)
    ensures var t := Run(s, steps);
      AllResting(t) && t.drainers == [] && t.everSent == s.everSent && t.counter == s.counter && t.limit == s.limit
  {
    if steps != [] {
      RefusedForEver(s, steps[..|steps| - 1]);
    }
  }

  // ---- Sequential calls ----

  /** The state after a push that nothing interrupts. */
  function Pushed(s: State): State {
    if s.counter >= s.limit || s.occupancy == [] then s
    else
      var k := s.roundRobin % |s.occupancy|;
      if s.occupancy[k] < s.capacity
      then s.(counter := s.counter + 1, roundRobin := s.roundRobin + 1, everSent := s.everSent + 1,
              occupancy := s.occupancy[k := s.occupancy[k] + 1])
      else s.(roundRobin := s.roundRobin + 1)
  }

  /** One count for each selection, and no shard with more than was dealt to it. */
  ghost predicate AtMostDealt(s: State) {
    s.counter == s.roundRobin &&
    forall k :: 0 <= k < |s.occupancy| ==> s.occupancy[k] <= Selected(s.roundRobin, |s.occupancy|, k)
  }

  lemma PushedAtMostDealt(s: State)
    requires AtMostDealt(s) && s.limit == BackpressureLimit(|s.occupancy| + 1, s.capacity)
    ensures AtMostDealt(Pushed(s))
    ensures s.counter < s.limit ==> s.occupancy != [] && s.occupancy[s.roundRobin % |s.occupancy|] < s.capacity
  {
    if s.counter < s.limit {
      RoomBelowLimit(s.counter, |s.occupancy| + 1, s.capacity);
      hide Selected, BackpressureLimit;
      var n, m := s.roundRobin, |s.occupancy|;
      forall k | 0 <= k < m ensures Selected(n + 1, m, k) == Selected(n, m, k) + (if k == n % m then 1 else 0) {
        SelectedStep(n, m, k);
      }
    }
  }

  lemma TakenAtMostDealt(s: State, t: State)
    requires AtMostDealt(s) && t.counter == s.counter && t.roundRobin == s.roundRobin
    requires |t.occupancy| == |s.occupancy| && forall k :: 0 <= k < |t.occupancy| ==> t.occupancy[k] <= s.occupancy[k]
    ensures AtMostDealt(t)
  {
    hide Selected;
  }

  lemma SoloPush(s: State)
    requires s.pushers == [Resting] && (s.occupancy == [] ==> s.counter >= s.limit)
    ensures Run(s, PushSteps(0)) == Pushed(s)
  {
    hide Next;
    RunFour(s, Load(0), Select(0), TrySend(0), FetchAdd(0));
    if s.counter < s.limit {
      SoloSelect(s);
      var k := s.roundRobin % |s.occupancy|;
      SoloSend(s.(pushers := [Chosen(k)], roundRobin := s.roundRobin + 1), k);
      assert s.(pushers := [Chosen(k)]).(pushers := [Resting]) == s;
    } else {
      SoloRefused(s);
    }
  }

  lemma SoloRefused(s: State)
    requires s.pushers == [Resting] && s.counter >= s.limit
    ensures Next(s, Load(0)) == s && Next(s, Select(0)) == s && Next(s, TrySend(0)) == s && Next(s, FetchAdd(0)) == s
  {
  }

  lemma SoloSelect(s: State)
    requires s.pushers == [Resting] && s.occupancy != [] && s.counter < s.limit
    ensures Next(Next(s, Load(0)), Select(0)) ==
            s.(pushers := [Chosen(s.roundRobin % |s.occupancy|)], roundRobin := s.roundRobin + 1)
  {
    assert Next(s, Load(0)) == s.(pushers := [Admitted]);
  }

  lemma SoloSend(s: State, k: nat)
    requires s.pushers == [Chosen(k)] && k < |s.occupancy|
    ensures Next(Next(s, TrySend(0)), FetchAdd(0)) ==
      if s.occupancy[k] < s.capacity
      then s.(pushers := [Resting], counter := s.counter + 1, everSent := s.everSent + 1,
        occupancy := s.occupancy[k := s.occupancy[k] + 1])
      else s.(pushers := [Resting])
  {
    var t := Next(s, TrySend(0));
    assert t.pushers == [if s.occupancy[k] < s.capacity then Sent else Resting];
  }

  function Lengths<T>(shards: seq<seq<T>>): (r: seq<nat>)
    ensures |r| == |shards| && forall k :: 0 <= k < |r| ==> r[k] == |shards[k]|
  {
    seq(|shards|, k requires 0 <= k < |shards| => |shards[k]|)
  }

  lemma LengthsPush<T>(shards: seq<seq<T>>, k: nat, message: T)
    requires k < |shards|
    ensures Lengths(shards[k := shards[k] + [message]]) == Lengths(shards)[k := |shards[k]| + 1]
  {
  }

  datatype PushResult = Accepted(id: nat) | Full | Backpressure

  /** One process's view of the manager; shard ids 1 to numShards - 1 are regular, 0 is the deadzone shard and
      numShards the spread shard. */
  class ShardManager<T> {
    const numShards: nat
    const shardSize: nat
    const limit: nat
    var counter: nat
    var roundRobin: nat
    var shards: seq<seq<T>>
    var deadzone: seq<T>
    var spread: seq<T>
    /** Shards whose receiver a worker has taken. */
    var owned: set<nat>

    ghost predicate Valid()
      reads this
    {
      && numShards >= 1 && |shards| == numShards - 1 && limit == BackpressureLimit(numShards, shardSize)
      && (forall k :: 0 <= k < |shards| ==> |shards[k]| <= shardSize)
      && |deadzone| <= shardSize && |spread| <= shardSize
    }

    /** The shared state of the interleaved model, with one caller at rest. */
    ghost function View(): State
      reads this
    {
      State(limit, shardSize, counter, roundRobin, Lengths(shards), [Resting], [], counter, 0, 0)
    }

    /** What holds as long as no regular shard has been drained through `drain_shard`. */
    ghost predicate Undrained()
      reads this
    {
      AtMostDealt(View())
    }

    constructor (numShards: nat, shardSize: nat)
      requires numShards >= 1
      ensures Valid() && Undrained() && this.numShards == numShards && this.shardSize == shardSize
      ensures 10 * limit <= 8 * (numShards - 1) * shardSize < 10 * limit + 10
      ensures counter == 0 && deadzone == [] && spread == [] && owned == {} && forall k :: 0 <= k < |shards| ==>
        shards[k] == []
    {
      this.numShards, this.shardSize := numShards, shardSize;
      limit := BackpressureLimit(numShards, shardSize);
      assert 8 * (numShards - 1) * shardSize == (numShards - 1) * shardSize * 8;
      counter, roundRobin := 0, 0;
      shards := seq(numShards - 1, _ => []);
      deadzone, spread, owned := [], [], {};
    }

    /** `get_receiver`: a receiver is handed out once. */
    method GetReceiver(id: nat) returns (ok: bool)
      requires Valid()
      modifies `owned
      ensures ok <==> id <= numShards && id !in old(owned)
      ensures owned == if ok then old(owned) + {id} else old(owned)
    {
      ok := id <= numShards && id !in owned;
      if ok {
        owned := owned + {id};
      }
    }

    /** `push`: run without interference it is the four atomic steps in a row, and before any drain it never
        finds its shard full. */
    method Push(message: T) returns (r: PushResult)
      requires Valid()
      modifies this
      ensures Valid() && spread == old(spread) && deadzone == old(deadzone) && owned == old(owned)
      ensures r.Backpressure? <==> old(counter) >= limit
      ensures old(counter) < limit ==>
        && numShards >= 2 && roundRobin == old(roundRobin) + 1
        && var k := old(roundRobin) % (numShards - 1);
          r == if |old(shards)[k]| < shardSize then Accepted(1 + k) else Full
      ensures r.Accepted? ==> 1 <= r.id < numShards && counter == old(counter) + 1
      ensures r.Accepted? ==> shards == old(shards)[r.id - 1 := old(shards)[r.id - 1] + [message]]
      ensures !r.Accepted? ==> shards == old(shards) && counter == old(counter)
      ensures View() == Run(old(View()), PushSteps(0))
      ensures old(Undrained()) ==> Undrained() && !r.Full?
    {
      ghost var before := View();
      if counter < limit {
        RoomBelowLimit(counter, numShards, shardSize);
      }
      if Undrained() {
        PushedAtMostDealt(before);
      }
      SoloPush(before);
      hide Run, Next, AtMostDealt, BackpressureLimit, Lengths;
      if counter >= limit {
        return Backpressure;
      }
      var k := roundRobin % (numShards - 1);
      roundRobin := roundRobin + 1;
      if |shards[k]| >= shardSize {
        return Full;
      }
      LengthsPush(shards, k, message);
      shards := shards[k := shards[k] + [message]];
      counter := counter + 1;
      return Accepted(1 + k);
    }

    /** `push_spread`: no gate, no counter. */
    method PushSpread(message: T) returns (ok: bool)
      requires Valid()
      modifies this
      ensures Valid() && counter == old(counter) && roundRobin == old(roundRobin) && shards == old(shards) &&
        deadzone == old(deadzone) && owned == old(owned)
      ensures ok <==> |old(spread)| < shardSize
      ensures spread == if ok then old(spread) + [message] else old(spread)
    {
      ok := |spread| < shardSize;
      if ok {
        spread := spread + [message];
      }
    }

    /** `push_deadzone`. */
    method PushDeadzone(message: T) returns (ok: bool)
      requires Valid()
      modifies this
      ensures Valid() && counter == old(counter) && roundRobin == old(roundRobin) && shards == old(shards) &&
        spread == old(spread) && owned == old(owned)
      ensures ok <==> |old(deadzone)| < shardSize
      ensures deadzone == if ok then old(deadzone) + [message] else old(deadzone)
    {
      ok := |deadzone| < shardSize;
      if ok {
        deadzone := deadzone + [message];
      }
    }

    /** `drain_shard` on a regular shard: everything in it, in order, and the counter down by as many, not below zero;
        nothing once a worker has its receiver. */
    method DrainRegular(id: nat) returns (messages: seq<T>)
      requires Valid() && 1 <= id < numShards
      modifies this
      ensures Valid() && messages == (if id in old(owned) then [] else old(shards)[id - 1])
      ensures shards == if id in old(owned) then old(shards) else old(shards)[id - 1 := []]
      ensures counter == Less(old(counter), |messages|)
      ensures spread == old(spread) && deadzone == old(deadzone) && roundRobin == old(roundRobin) && owned == old(owned)
    {
      messages := [];
      var k := id - 1;
      if id !in owned {
        while shards[k] != []
          invariant Valid() && messages + shards[k] == old(shards)[k] && shards == old(shards)[k := shards[k]] &&
            owned == old(owned)
          invariant counter == old(counter) && spread == old(spread) && deadzone == old(deadzone) &&
            roundRobin == old(roundRobin)
          decreases |shards[k]|
        {
          messages := messages + [shards[k][0]];
          shards := shards[k := shards[k][1..]];
        }
      }
      if messages != [] {
        counter := Less(counter, |messages|);
      }
    }

    /** `drain_shard` on the spread shard. */
    method DrainSpread() returns (messages: seq<T>)
      requires Valid()
      modifies this
      ensures Valid() && messages == (if numShards in old(owned) then [] else old(spread))
      ensures spread == if numShards in old(owned) then old(spread) else []
      ensures counter == old(counter) && shards == old(shards) && deadzone == old(deadzone) &&
        roundRobin == old(roundRobin)
      ensures owned == old(owned)
    {
      messages := [];
      if numShards !in owned {
        while spread != []
          invariant Valid() && messages + spread == old(spread) && owned == old(owned)
          invariant counter == old(counter) && shards == old(shards) && deadzone == old(deadzone) &&
            roundRobin == old(roundRobin)
          decreases |spread|
        {
          messages := messages + [spread[0]];
          spread := spread[1..];
        }
      }
    }

    /** One round of `run_batched` on a shard that has a message: the oldest messages, at least one and at most
        batchSize, leave the shard; the counter stays as it was. */
    method WorkerRound(id: nat, batchSize: nat) returns (batch: seq<T>)
      requires Valid() && 1 <= id < numShards && id in owned && shards[id - 1] != []
      modifies this
      ensures Valid() && batch + shards[id - 1] == old(shards)[id - 1] &&
        shards == old(shards)[id - 1 := shards[id - 1]]
      ensures 1 <= |batch| && (|batch| == batchSize || |batch| == 1 || shards[id - 1] == [])
      ensures |batch| <= batchSize || |batch| == 1
      ensures counter == old(counter) && spread == old(spread) && deadzone == old(deadzone) &&
        roundRobin == old(roundRobin)
      ensures owned == old(owned) && (old(Undrained()) ==> Undrained())
    {
      ghost var before := View();
      var k := id - 1;
      batch := [shards[k][0]];
      shards := shards[k := shards[k][1..]];
      while |batch| < batchSize && shards[k] != []
        invariant Valid() && batch + shards[k] == old(shards)[k] && shards == old(shards)[k := shards[k]]
        invariant 1 <= |batch| && (|batch| <= batchSize || |batch| == 1) && owned == old(owned)
        invariant counter == old(counter) && spread == old(spread) && deadzone == old(deadzone) &&
          roundRobin == old(roundRobin)
        decreases |shards[k]|
      {
        batch := batch + [shards[k][0]];
        shards := shards[k := shards[k][1..]];
      }
      assert forall j :: 0 <= j < |shards| ==> Lengths(shards)[j] <= before.occupancy[j];
      if old(Undrained()) {
        TakenAtMostDealt(before, View());
      }
    }
  }
}
