/** The snapshot store (src/snapshot.rs): a map of snapshots and a queue of created ids that is cleaned up lazily.
    The id of a snapshot, a hash of its content, and the clock are parameters. */
module Snapshots {
  import opened Bytes
  import opened Protocols

  datatype Snapshot = Snapshot(
    id: string, messages: seq<Message>, protocol: Protocol, createdAt: u64, sizeBytes: nat, deviceId: u64)

  datatype Store = Store(snapshots: map<string, Snapshot>, order: seq<string>)

  datatype Limits = Limits(maxSnapshots: nat, ttlMs: u64)

  const EMPTY := Store(map[], [])

  function Make(id: string, messages: seq<Message>, p: Protocol, deviceId: u64, now: u64): Snapshot {
    Snapshot(id, messages, p, now, Total(messages, (m: Message) => |m.data|), deviceId)
  }

  /** The age in 64-bit wrapping arithmetic. */
  function Age(s: Snapshot, now: u64): u64 {
    (now - s.createdAt) % TWO64
  }

  predicate Matches(l: Limits, s: Snapshot, deviceId: u64, since: u64, now: u64) {
    s.deviceId == deviceId && s.createdAt >= since && Age(s, now) < l.ttlMs
  }

  // ---- Operations ----

  /** Eviction pops ids until it has popped one that is in the map; the second result is the number of pops. */
  function Evict(s: Store): (Store, nat)
    decreases |s.order|
  {
    if s.order == [] then (s, 0)
    else if s.order[0] in s.snapshots then (Store(s.snapshots - {s.order[0]}, s.order[1..]), 1)
    else var (t, n) := Evict(Store(s.snapshots, s.order[1..])); (t, n + 1)
  }

  function Create(l: Limits, s: Store, x: Snapshot): (Store, nat) {
    var (t, n) := if |s.snapshots| >= l.maxSnapshots then Evict(s) else (s, 0);
    (Store(t.snapshots[x.id := x], t.order + [x.id]), n)
  }

  function Matching(l: Limits, s: Store, deviceId: u64, since: u64, now: u64): set<string> {
    set id | id in s.snapshots && Matches(l, s.snapshots[id], deviceId, since, now)
  }

  function Expired(l: Limits, s: Store, now: u64): set<string> {
    set id | id in s.snapshots && Age(s.snapshots[id], now) >= l.ttlMs
  }

  function Without(s: Store, ids: set<string>): Store {
    Store(s.snapshots - ids, s.order)
  }

  datatype Op =
    | CreateOp(snapshot: Snapshot)
    | Drain(deviceId: u64, since: u64, now: u64)
    | Delete(id: string)
    | ClearExpired(now: u64)

  /** The store after an operation and the pops it took. */
  function Apply(l: Limits, s: Store, op: Op): (Store, nat) {
    match op
    case CreateOp(x) => Create(l, s, x)
    case Drain(deviceId, since, now) => (Without(s, Matching(l, s, deviceId, since, now)), 0)
    case Delete(id) => (Without(s, {id}), 0)
    case ClearExpired(now) => (Without(s, Expired(l, s, now)), 0)
  }

  /** The store after a run from an empty store, and all pops of the run. */
  function Run(l: Limits, ops: seq<Op>): (Store, nat) {
    if ops == [] then (EMPTY, 0)
    else
      var (s, n) := Run(l, ops[..|ops| - 1]);
      var (t, k) := Apply(l, s, ops[|ops| - 1]);
      (t, n + k)
  }

  /** The ids created in a run, in order. */
  function Created(ops: seq<Op>): seq<string> {
    if ops == [] then []
    else
      var op := ops[|ops| - 1];
      Created(ops[..|ops| - 1]) + if op.CreateOp? then [op.snapshot.id] else []
  }

  // ---- Invariants ----

  function Capacity(l: Limits): nat {
    if l.maxSnapshots == 0 then 1 else l.maxSnapshots
  }

  /** Each snapshot is filed under its id, its id is in the queue, and the map is within capacity. */
  ghost predicate Inv(l: Limits, s: Store) {
    && (forall id :: id in s.snapshots ==> s.snapshots[id].id == id)
    && Queued(s)
    && |s.snapshots| <= Capacity(l)
  }

  ghost predicate Queued(s: Store) {
    forall id :: id in s.snapshots ==> id in s.order
  }

  /** The place in the queue of the first id that is in the map. */
  function FirstLive(s: Store): nat
    decreases |s.order|
  {
    if s.order == [] || s.order[0] in s.snapshots then 0 else 1 + FirstLive(Store(s.snapshots, s.order[1..]))
  }

  lemma {:induction false} FirstLiveIs(s: Store)
    requires Queued(s) && s.snapshots != map[]
    ensures var i := FirstLive(s); i < |s.order| && s.order[i] in s.snapshots
    ensures forall j :: 0 <= j < FirstLive(s) ==> s.order[j] !in s.snapshots
    decreases |s.order|
  {
    var id :| id in s.snapshots;
    assert id in s.order;
    if s.order[0] !in s.snapshots {
      TailQueued(s);
      FirstLiveIs(Store(s.snapshots, s.order[1..]));
    }
  }

  lemma TailQueued(s: Store)
    requires Queued(s) && s.order != [] && s.order[0] !in s.snapshots
    ensures Queued(Store(s.snapshots, s.order[1..]))
  {
    forall id | id in s.snapshots ensures id in s.order[1..] {
      var i :| 0 <= i < |s.order| && s.order[i] == id;
      assert s.order[1..][i - 1] == id;
    }
  }

  /** However many ghosts and duplicates the queue holds, eviction from a nonempty map removes exactly one snapshot, the
      first live one of the queue, and pops no id beyond it. */
  lemma {:induction false} EvictsOne(s: Store)
    requires Queued(s) && s.snapshots != map[]
    ensures var i := FirstLive(s); var (t, n) := Evict(s);
      i < |s.order| && s.order[i] in s.snapshots && n == i + 1 && t == Store(s.snapshots - {s.order[i]}, s.order[n..])
    decreases |s.order|
  {
    FirstLiveIs(s);
    if s.order[0] !in s.snapshots {
      TailQueued(s);
      var tail := Store(s.snapshots, s.order[1..]);
      EvictsOne(tail);
      assert s.order[1..][FirstLive(tail) + 1..] == s.order[FirstLive(tail) + 2..];
    }
  }

  /** Eviction pops a prefix of the queue, at most all of it. */
  lemma {:induction false} EvictPops(s: Store)
    ensures var (t, n) := Evict(s); n <= |s.order| && t.order == s.order[n..]
    decreases |s.order|
  {
    if s.order != [] && s.order[0] !in s.snapshots {
      EvictPops(Store(s.snapshots, s.order[1..]));
    }
  }

  lemma EvictKeeps(l: Limits, s: Store)
    requires Inv(l, s) && s.snapshots != map[]
    ensures var (t, _) := Evict(s); Inv(l, t) && |t.snapshots| == |s.snapshots| - 1
  {
    hide Evict, FirstLive, Queued;
    EvictsOne(s);
    var id := s.order[FirstLive(s)];
    MinusOne(s.snapshots, id);
    QueuedAfter(s);
    assert forall other :: other in s.snapshots - {id} ==>
      other in s.snapshots && (s.snapshots - {id})[other] == s.snapshots[other];
  }

  lemma QueuedAfter(s: Store)
    requires Queued(s) && s.snapshots != map[]
    ensures var i := FirstLive(s);
      i < |s.order| && Queued(Store(s.snapshots - {s.order[i]}, s.order[i + 1..]))
  {
    FirstLiveIs(s);
    hide FirstLive;
    var i := FirstLive(s);
    forall id | id in s.snapshots && id != s.order[i] ensures id in s.order[i + 1..] {
      var j :| 0 <= j < |s.order| && s.order[j] == id;
      assert s.order[i + 1..][j - i - 1] == id;
    }
  }

  lemma MinusOne(m: map<string, Snapshot>, id: string)
    requires id in m
    ensures |m - {id}| == |m| - 1
  {
    assert (m - {id}).Keys == m.Keys - {id};
    assert |m.Keys| == |m| && |(m - {id}).Keys| == |m - {id}|;
  }

  lemma MinusSize(m: map<string, Snapshot>, ids: set<string>)
    ensures |m - ids| <= |m|
  {
    SubsetSize(m.Keys - ids, m.Keys);
    assert (m - ids).Keys == m.Keys - ids;
    assert |m.Keys| == |m| && |(m - ids).Keys| == |m - ids|;
  }

  lemma {:induction false} SubsetSize(a: set<string>, b: set<string>)
    requires a <= b
    ensures |a| <= |b|
  {
    if a != {} {
      var x :| x in a;
      SubsetSize(a - {x}, b - {x});
    }
  }

  lemma PlusSize(m: map<string, Snapshot>, id: string, x: Snapshot)
    ensures |m[id := x]| <= |m| + 1
  {
    assert m[id := x].Keys == m.Keys + {id};
    assert |m.Keys| == |m| && |m[id := x].Keys| == |m[id := x]|;
  }

  lemma CreateKeeps(l: Limits, s: Store, x: Snapshot)
    requires Inv(l, s)
    ensures Inv(l, Create(l, s, x).0)
  {
    hide Evict;
    var (t, _) := if |s.snapshots| >= l.maxSnapshots then Evict(s) else (s, 0);
    if |s.snapshots| >= l.maxSnapshots {
      if s.snapshots == map[] {
        EvictEmpty(s);
      } else {
        EvictKeeps(l, s);
      }
    }
    PlusSize(t.snapshots, x.id, x);
  }

  lemma {:induction false} EvictEmpty(s: Store)
    requires s.snapshots == map[]
    ensures Evict(s).0 == EMPTY
    decreases |s.order|
  {
    if s.order != [] {
      EvictEmpty(Store(s.snapshots, s.order[1..]));
    }
  }

  lemma WithoutKeeps(l: Limits, s: Store, ids: set<string>)
    requires Inv(l, s)
    ensures Inv(l, Without(s, ids))
  {
    MinusSize(s.snapshots, ids);
  }

  lemma ApplyKeeps(l: Limits, s: Store, op: Op)
    requires Inv(l, s)
    ensures Inv(l, Apply(l, s, op).0)
  {
    hide Inv, Create, Without;
    match op {
      case CreateOp(x) => CreateKeeps(l, s, x);
      case Drain(deviceId, since, now) => WithoutKeeps(l, s, Matching(l, s, deviceId, since, now));
      case Delete(id) => WithoutKeeps(l, s, {id});
      case ClearExpired(now) => WithoutKeeps(l, s, Expired(l, s, now));
    }
  }

  /** Every reachable store keeps the invariant, with at most max(1, max_snapshots) snapshots. */
  lemma {:induction false} RunKeeps(l: Limits, ops: seq<Op>)
    ensures Inv(l, Run(l, ops).0)
  {
    hide Apply;
    if ops != [] {
      RunKeeps(l, ops[..|ops| - 1]);
      ApplyKeeps(l, Run(l, ops[..|ops| - 1]).0, ops[|ops| - 1]);
    }
  }

  /** The queue is the list of created ids without those popped: every create pays for one pop, so the eviction loop
      runs at most once per create over any run. */
  lemma {:induction false} QueueIsSuffix(l: Limits, ops: seq<Op>)
    ensures var (s, pops) := Run(l, ops);
      pops + |s.order| == |Created(ops)| && s.order == Created(ops)[pops..]
  {
    hide Apply;
    if ops != [] {
      QueueIsSuffix(l, ops[..|ops| - 1]);
      var (s, pops) := Run(l, ops[..|ops| - 1]);
      ApplySuffix(l, s, ops[|ops| - 1], Created(ops[..|ops| - 1]), pops);
    }
  }

  lemma ApplySuffix(l: Limits, s: Store, op: Op, created: seq<string>, pops: nat)
    requires pops + |s.order| == |created| && s.order == created[pops..]
    ensures var c := created + if op.CreateOp? then [op.snapshot.id] else []; var (t, k) := Apply(l, s, op);
      pops + k + |t.order| == |c| && t.order == c[pops + k..]
  {
    hide Evict, Matching, Expired;
    if op.CreateOp? {
      EvictPops(s);
      var (_, n) := Create(l, s, op.snapshot);
      SuffixSnoc(created, pops, n, op.snapshot.id);
    }
  }

  lemma SuffixSnoc(c: seq<string>, pops: nat, n: nat, id: string)
    requires pops + n <= |c|
    ensures c[pops..][n..] + [id] == (c + [id])[pops + n..] && c[pops..] + [id] == (c + [id])[pops..]
  {
  }

  // ---- What a store holds ----

  /** The id that eviction would remove. */
  function Victim(s: Store): (id: string)
    requires Queued(s) && s.snapshots != map[]
    ensures id in s.snapshots
  {
    FirstLiveIs(s);
    s.order[FirstLive(s)]
  }

  function Stored(s: Store, id: string): Option<Snapshot> {
    if id in s.snapshots then Some(s.snapshots[id]) else None
  }

  lemma CreateEffect(l: Limits, s: Store, x: Snapshot, id: string)
    requires Inv(l, s)
    ensures Stored(Create(l, s, x).0, id) ==
      if id == x.id then Some(x)
      else if |s.snapshots| >= l.maxSnapshots && s.snapshots != map[] && id == Victim(s) then None
      else Stored(s, id)
  {
    hide Evict, FirstLive, Queued;
    if |s.snapshots| >= l.maxSnapshots {
      if s.snapshots == map[] {
        EvictEmpty(s);
      } else {
        EvictsOne(s);
      }
    }
  }

  lemma WithoutEffect(s: Store, ids: set<string>, id: string)
    ensures Stored(Without(s, ids), id) == if id in ids then None else Stored(s, id)
  {
  }

  lemma DrainEffect(l: Limits, s: Store, deviceId: u64, since: u64, now: u64, id: string)
    ensures Stored(Without(s, Matching(l, s, deviceId, since, now)), id) ==
      var x := Stored(s, id);
      if x.Some? && x.value.deviceId == deviceId && x.value.createdAt >= since
         && (now - x.value.createdAt) % TWO64 < l.ttlMs then None
      else x
  {
    hide Without;
    WithoutEffect(s, Matching(l, s, deviceId, since, now), id);
  }

  lemma ClearEffect(l: Limits, s: Store, now: u64, id: string)
    ensures Stored(Without(s, Expired(l, s, now)), id) ==
      var x := Stored(s, id); if x.Some? && (now - x.value.createdAt) % TWO64 >= l.ttlMs then None else x
  {
    hide Without;
    WithoutEffect(s, Expired(l, s, now), id);
  }

  /** Over every run, what one more operation does to what is stored under an id. A creation stores its snapshot and, in
      a full store, takes away one other; a drain takes the snapshots of its device that are not from before `since`
      and are younger than the time to live, clearing takes those that are as old or older, and deletion takes one id;
      nothing else changes. */
  lemma StoredAfter(l: Limits, ops: seq<Op>, op: Op, id: string)
    ensures var s := Run(l, ops).0;
      var found, found' := Stored(s, id), Stored(Run(l, ops + [op]).0, id);
      && Queued(s)
      && (op.CreateOp? ==>
            found' == if id == op.snapshot.id then Some(op.snapshot)
                      else if |s.snapshots| >= l.maxSnapshots && s.snapshots != map[] && id == Victim(s) then None
                      else found)
      && (op.Drain? ==>
            found' == if found.Some? && found.value.deviceId == op.deviceId && found.value.createdAt >= op.since
                         && (op.now - found.value.createdAt) % TWO64 < l.ttlMs then None
                      else found)
      && (op.Delete? ==> found' == if id == op.id then None else found)
      && (op.ClearExpired? ==>
            found' == if found.Some? && (op.now - found.value.createdAt) % TWO64 >= l.ttlMs then None else found)
  {
    hide Run, Create, Victim, Without, Stored, Matching, Expired;
    RunKeeps(l, ops);
    RunSnoc(l, ops, op);
    var s := Run(l, ops).0;
    match op {
      case CreateOp(x) => CreateEffect(l, s, x, id);
      case Drain(deviceId, since, now) => DrainEffect(l, s, deviceId, since, now, id);
      case Delete(gone) => WithoutEffect(s, {gone}, id);
      case ClearExpired(now) => ClearEffect(l, s, now, id);
    }
  }

  /** The last snapshot created under an id. */
  function LastCreated(ops: seq<Op>, id: string): Option<Snapshot> {
    if ops == [] then None
    else
      var op := ops[|ops| - 1];
      if op.CreateOp? && op.snapshot.id == id then Some(op.snapshot) else LastCreated(ops[..|ops| - 1], id)
  }

  /** Over every run, what is stored under an id is the last snapshot created under it. */
  lemma {:induction false} StoredIsLast(l: Limits, ops: seq<Op>, id: string)
    ensures Stored(Run(l, ops).0, id).Some? ==> Stored(Run(l, ops).0, id) == LastCreated(ops, id)
  {
    if ops == [] {
      EmptyRun(l);
    } else {
      var k := |ops| - 1;
      StoredIsLast(l, ops[..k], id);
      hide Run, Stored, Victim;
      assert ops == ops[..k] + [ops[k]];
      StoredAfter(l, ops[..k], ops[k], id);
    }
  }

  // ---- Is the evicted snapshot the oldest? ----

  /** The last place of x in s; -1 if there is none. */
  function LastIndex(s: seq<string>, x: string): (i: int)
    ensures -1 <= i < |s| && (i >= 0 ==> s[i] == x)
    ensures forall j :: i < j < |s| ==> s[j] != x
  {
    if s == [] then -1 else if s[|s| - 1] == x then |s| - 1 else LastIndex(s[..|s| - 1], x)
  }

  lemma LastIndexAfter(s: seq<string>, x: string, i: nat)
    requires i < |s|
    ensures LastIndex(s, x) > i <==> x in s[i + 1..]
  {
    hide LastIndex;
    var k := LastIndex(s, x);
    var rest := s[i + 1..];
    if k > i {
      assert rest[k - i - 1] == x;
    } else {
      forall j | 0 <= j < |rest| ensures rest[j] != x {
        assert rest[j] == s[i + 1 + j];
      }
    }
  }

  lemma LastIndexSuffix(s: seq<string>, n: nat, x: string)
    requires n <= |s| && x in s[n..]
    ensures LastIndex(s, x) == n + LastIndex(s[n..], x)
  {
    hide LastIndex;
    var j := LastIndex(s[n..], x);
    assert s[n + j] == x;
    var k := LastIndex(s, x);
    assert k >= n + j;
    assert s[n..][k - n] == x;
  }

  /** The last creation of the victim came before the last creation of every other live id. */
  ghost predicate IsOldest(created: seq<string>, live: set<string>, victim: string) {
    forall id :: id in live && id != victim ==> LastIndex(created, victim) < LastIndex(created, id)
  }

  /** Every other live id is in the queue after the victim's last place. */
  ghost predicate OthersQueuedAfter(order: seq<string>, live: set<string>, victim: string)
    requires victim in order
  {
    LastIndexAfter(order, victim, 0);
    forall id :: id in live && id != victim ==> id in order[LastIndex(order, victim) + 1..]
  }

  lemma OldestIff(created: seq<string>, n: nat, live: set<string>, victim: string)
    requires n <= |created| && victim in live
    requires forall id :: id in live ==> id in created[n..]
    ensures IsOldest(created, live, victim) <==> OthersQueuedAfter(created[n..], live, victim)
  {
    hide LastIndex;
    var order := created[n..];
    LastIndexSuffix(created, n, victim);
    forall id | id in live
      ensures LastIndex(created, victim) < LastIndex(created, id) <==> id in order[LastIndex(order, victim) + 1..]
    {
      LastIndexSuffix(created, n, id);
      LastIndexAfter(order, id, LastIndex(order, victim));
    }
  }

  /** Eviction takes the snapshot created first, of those still there, exactly when every other live id is queued after
      the victim's last place in the queue. */
  lemma EvictsOldestIff(l: Limits, ops: seq<Op>)
    requires Run(l, ops).0.snapshots != map[]
    ensures var s := Run(l, ops).0;
      && Queued(s) && Victim(s) in s.order
      && (IsOldest(Created(ops), s.snapshots.Keys, Victim(s)) <==>
        OthersQueuedAfter(s.order, s.snapshots.Keys, Victim(s)))
  {
    hide Run, Created, FirstLive, IsOldest, OthersQueuedAfter;
    RunKeeps(l, ops);
    QueueIsSuffix(l, ops);
    var (s, pops) := Run(l, ops);
    OldestIff(Created(ops), pops, s.snapshots.Keys, Victim(s));
  }

  lemma RunSnoc(l: Limits, ops: seq<Op>, op: Op)
    ensures var (s, n) := Run(l, ops); var (t, k) := Apply(l, s, op); Run(l, ops + [op]) == (t, n + k)
  {
    hide Apply;
    assert (ops + [op])[..|ops|] == ops;
  }

  /** A snapshot created again keeps its old place in the queue, and goes before an older one. */
  lemma RecreatedGoesFirst(l: Limits, a: Snapshot, b: Snapshot)
    requires l.maxSnapshots >= 3 && a.id != b.id
    ensures var ops := [CreateOp(a)] + [CreateOp(b)] + [CreateOp(a)]; var s := Run(l, ops).0;
      && s.snapshots == map[a.id := a, b.id := b] && a.id in s.snapshots && Queued(s) && Victim(s) == a.id
      && !IsOldest(Created(ops), s.snapshots.Keys, a.id)
  {
    var ops := [CreateOp(a)] + [CreateOp(b)] + [CreateOp(a)];
    assert Run(l, ops).0 == Store(map[a.id := a, b.id := b], [a.id, b.id, a.id]) by {
      ThreeCreates(l, a, b);
    }
    var s := Run(l, ops).0;
    assert a.id in s.snapshots;
    EvictsOldestIff(l, ops);
    assert FirstLive(s) == 0;
    assert LastIndex(s.order, a.id) == 2;
    assert b.id in s.snapshots.Keys && b.id !in s.order[3..];
  }

  lemma ThreeCreates(l: Limits, a: Snapshot, b: Snapshot)
    requires l.maxSnapshots >= 3 && a.id != b.id
    ensures Run(l, [CreateOp(a)] + [CreateOp(b)] + [CreateOp(a)]).0 ==
      Store(map[a.id := a, b.id := b], [a.id, b.id, a.id])
  {
    hide Run, Evict;
    assert Run(l, []) == (EMPTY, 0) by {
      EmptyRun(l);
    }
    assert [] + [CreateOp(a)] == [CreateOp(a)];
    RunSnoc(l, [], CreateOp(a));
    RunSnoc(l, [CreateOp(a)], CreateOp(b));
    RunSnoc(l, [CreateOp(a)] + [CreateOp(b)], CreateOp(a));
    var one, two := map[a.id := a], map[a.id := a][b.id := b];
    assert |one| == 1 && |two| == 2 && two[a.id := a] == two == map[a.id := a, b.id := b];
  }

  lemma EmptyRun(l: Limits)
    ensures Run(l, []) == (EMPTY, 0) && Created([]) == []
  {
  }

  // ---- Which creation sequences evict in order ----

  /** No id recurs after a different one. */
  ghost predicate Blocks(c: seq<string>) {
    forall i, j, k :: 0 <= i < j < k < |c| && c[i] == c[k] ==> c[j] == c[i]
  }

  /** Eviction would take the oldest. */
  ghost predicate InOrder(l: Limits, ops: seq<Op>) {
    var s := Run(l, ops).0;
    s.snapshots != map[] ==> Queued(s) && IsOldest(Created(ops), s.snapshots.Keys, Victim(s))
  }

  lemma BlocksQueue(s: Store)
    requires Queued(s) && s.snapshots != map[] && Blocks(s.order)
    ensures Victim(s) in s.order && OthersQueuedAfter(s.order, s.snapshots.Keys, Victim(s))
  {
    hide FirstLive, LastIndex, Blocks;
    FirstLiveIs(s);
    var i := FirstLive(s);
    var k := LastIndex(s.order, s.order[i]);
    forall id | id in s.snapshots && id != s.order[i] ensures id in s.order[k + 1..] {
      var j :| 0 <= j < |s.order| && s.order[j] == id;
      assert i < j;
      if j < k {
        BlocksAt(s.order, i, j, k);
      }
      assert j > k ==> s.order[k + 1..][j - k - 1] == id;
    }
  }

  /** Whatever the limits, blocks of equal ids are evicted in order. */
  lemma BlocksInOrder(l: Limits, ops: seq<Op>)
    requires Blocks(Created(ops))
    ensures InOrder(l, ops)
  {
    hide Run, Created, Victim, IsOldest, OthersQueuedAfter;
    var (s, pops) := Run(l, ops);
    if s.snapshots != map[] {
      EvictsOldestIff(l, ops);
      QueueIsSuffix(l, ops);
      var c := Created(ops);
      assert forall j :: 0 <= j < |s.order| ==> s.order[j] == c[pops + j];
      BlocksQueue(s);
    }
  }

  /** In particular when no id has been created twice. */
  lemma DistinctIdsEvictOldest(l: Limits, ops: seq<Op>)
    requires forall i, j :: 0 <= i < j < |Created(ops)| ==> Created(ops)[i] != Created(ops)[j]
    ensures InOrder(l, ops)
  {
    hide InOrder, Created;
    BlocksInOrder(l, ops);
  }

  function Blank(id: string): Snapshot {
    Snapshot(id, [], IridiumSBD, 0, 0, 0)
  }

  /** Creates along c, and deletes each id right away unless it is b. */
  function CreatesKeeping(c: seq<string>, b: string): seq<Op> {
    if c == [] then []
    else
      var id := c[|c| - 1];
      var created := CreatesKeeping(c[..|c| - 1], b) + [CreateOp(Blank(id))];
      if id == b then created else created + [Delete(id)]
  }

  lemma CreatedSnoc(ops: seq<Op>, op: Op)
    ensures Created(ops + [op]) == Created(ops) + if op.CreateOp? then [op.snapshot.id] else []
  {
    assert (ops + [op])[..|ops|] == ops;
  }

  /** The queue is c, and b is the only live id, if it is in c. */
  ghost predicate KeepsOnly(s: Store, c: seq<string>, b: string) {
    s.order == c && forall id :: id in s.snapshots <==> id == b && b in c
  }

  lemma AtMostOne(m: map<string, Snapshot>, b: string)
    requires forall id :: id in m ==> id == b
    ensures |m| <= 1
  {
    SubsetSize(m.Keys, {b});
    assert |m.Keys| == |m|;
  }

  lemma CreateUnevicted(l: Limits, s: Store, id: string)
    requires |s.snapshots| < l.maxSnapshots
    ensures Apply(l, s, CreateOp(Blank(id))).0 == Store(s.snapshots[id := Blank(id)], s.order + [id])
  {
  }

  lemma CreateKeeping(l: Limits, s: Store, c: seq<string>, id: string, b: string)
    requires KeepsOnly(s, c, b) && l.maxSnapshots >= 2
    ensures var t := Apply(l, s, CreateOp(Blank(id))).0;
      if id == b then KeepsOnly(t, c + [id], b) else KeepsOnly(Apply(l, t, Delete(id)).0, c + [id], b)
  {
    AtMostOne(s.snapshots, b);
    CreateUnevicted(l, s, id);
    hide Create;
  }

  lemma {:induction false} CreatesKeepingRun(l: Limits, c: seq<string>, b: string)
    requires l.maxSnapshots >= 2
    ensures Created(CreatesKeeping(c, b)) == c && KeepsOnly(Run(l, CreatesKeeping(c, b)).0, c, b)
  {
    hide Apply, Created, Run;
    if c == [] {
      EmptyRun(l);
    } else {
      var k := |c| - 1;
      CreatesKeepingRun(l, c[..k], b);
      var before, op := CreatesKeeping(c[..k], b), CreateOp(Blank(c[k]));
      RunSnoc(l, before, op);
      CreatedSnoc(before, op);
      RunSnoc(l, before + [op], Delete(c[k]));
      CreatedSnoc(before + [op], Delete(c[k]));
      assert c == c[..k] + [c[k]];
      hide KeepsOnly;
      CreateKeeping(l, Run(l, before).0, c[..k], c[k], b);
    }
  }

  lemma BlocksAt(c: seq<string>, i: nat, j: nat, k: nat)
    requires Blocks(c) && i < j < k < |c| && c[i] == c[k]
    ensures c[j] == c[i]
  {
  }

  lemma SomeReturn(c: seq<string>) returns (i: nat, j: nat, k: nat)
    requires !Blocks(c)
    ensures i < j < k < |c| && c[i] == c[k] != c[j]
  {
    i, j, k :| i < j < k < |c| && c[i] == c[k] && c[j] != c[i];
  }

  /** The first place where an id recurs after a different one. */
  lemma {:induction false} FirstReturn(c: seq<string>) returns (i: nat, j: nat, k: nat)
    requires !Blocks(c)
    ensures i < j < k < |c| && c[i] == c[k] != c[j] && Blocks(c[..k])
  {
    hide Blocks;
    i, j, k := SomeReturn(c);
    var n := |c| - 1;
    if Blocks(c[..n]) {
      if k < n {
        BlocksAt(c[..n], i, j, k);
      }
    } else {
      i, j, k := FirstReturn(c[..n]);
      assert c[..n][..k] == c[..k];
    }
  }

  /** Create up to the return of an id a, keeping only a different id b from in between: the newer a would go before
      b. */
  lemma ReturnOutOfOrder(l: Limits, c: seq<string>) returns (ops: seq<Op>)
    requires !Blocks(c) && l.maxSnapshots >= 2
    ensures IsPrefix(Created(ops), c) && !InOrder(l, ops)
  {
    hide Run, Created, CreatesKeeping, Blocks, OthersQueuedAfter, IsOldest, Victim, Apply;
    var i, j, k := FirstReturn(c);
    var d, a, b := c[..k], c[i], c[j];
    assert d[j] == b && c[..k + 1] == d + [a];
    var before := CreatesKeeping(d, b);
    CreatesKeepingRun(l, d, b);
    AtMostOne(Run(l, before).0.snapshots, b);
    CreateUnevicted(l, Run(l, before).0, a);
    ops := before + [CreateOp(Blank(a))];
    RunSnoc(l, before, CreateOp(Blank(a)));
    CreatedSnoc(before, CreateOp(Blank(a)));
    var s := Run(l, ops).0;
    assert a in s.snapshots && b in s.snapshots;
    EvictsOldestIff(l, ops);
    ReturnedIsVictim(s, c, i, j, k);
    EndOfQueue(s, a, b);
  }

  lemma ReturnedIsVictim(s: Store, c: seq<string>, i: nat, j: nat, k: nat)
    requires i < j < k < |c| && c[i] == c[k] != c[j] && Blocks(c[..k])
    requires s.order == c[..k + 1] && Queued(s) && s.snapshots != map[]
    requires forall id :: id in s.snapshots <==> id == c[i] || id == c[j]
    ensures Victim(s) == c[i]
  {
    FirstLiveIs(s);
    hide FirstLive;
    var f := FirstLive(s);
    assert s.order[i] == c[i] && c[i] in s.snapshots;
    assert f <= i;
    assert f < i ==> c[..k][f] == c[f] && c[..k][i] == c[i] && c[..k][j] == c[j];
  }

  lemma EndOfQueue(s: Store, a: string, b: string)
    requires s.order != [] && s.order[|s.order| - 1] == a && b != a && b in s.snapshots
    ensures !OthersQueuedAfter(s.order, s.snapshots.Keys, a)
  {
    hide LastIndex;
    assert LastIndex(s.order, a) == |s.order| - 1;
  }

  /** A store with a single snapshot has no choice. */
  lemma SmallInOrder(l: Limits, ops: seq<Op>)
    requires l.maxSnapshots <= 1
    ensures InOrder(l, ops)
  {
    hide Run, Created, Victim, LastIndex;
    RunKeeps(l, ops);
    var s := Run(l, ops).0;
    if s.snapshots != map[] {
      forall id | id in s.snapshots ensures id == Victim(s) {
        assert |s.snapshots.Keys| == |s.snapshots|;
        SubsetSize({id, Victim(s)}, s.snapshots.Keys);
      }
    }
  }

  /** Over all runs that create along c, with evictions, drains, deletions and expiries in between, eviction would
      always take the oldest if and only if the store holds a single snapshot or no id recurs in c after a different
      one. */
  lemma InOrderIff(l: Limits, c: seq<string>)
    ensures (forall ops :: IsPrefix(Created(ops), c) ==> InOrder(l, ops)) <==> l.maxSnapshots <= 1 || Blocks(c)
  {
    hide InOrder, Created;
    if l.maxSnapshots <= 1 || Blocks(c) {
      forall ops | IsPrefix(Created(ops), c) ensures InOrder(l, ops) {
        if l.maxSnapshots <= 1 {
          SmallInOrder(l, ops);
        } else {
          BlocksPrefix(Created(ops), c);
          BlocksInOrder(l, ops);
        }
      }
    } else {
      var ops := ReturnOutOfOrder(l, c);
      assert IsPrefix(Created(ops), c) && !InOrder(l, ops);
    }
  }

  lemma BlocksPrefix(p: seq<string>, c: seq<string>)
    requires Blocks(c) && IsPrefix(p, c)
    ensures Blocks(p)
  {
    assert forall i :: 0 <= i < |p| ==> p[i] == c[i];
  }

  // ---- The store in place ----

  /** `retain` with a closure that lists what it drops, over the ids in any order. */
  method Take(m: map<string, Snapshot>, drop: set<string>) returns (kept: map<string, Snapshot>, result: seq<Snapshot>)
    requires (forall id :: id in m ==> m[id].id == id) && drop <= m.Keys
    ensures kept == m - drop && Collected(m, drop, result)
  {
    NothingCollected(m);
    hide Collected;
    ghost var done: set<string> := {};
    var pending := m.Keys;
    kept, result := m, [];
    while pending != {}
      invariant done == drop - pending && pending <= m.Keys
      invariant kept == m - done && Collected(m, done, result)
      decreases |pending|
    {
      var id :| id in pending;
      OneLess(drop, pending, id);
      pending := pending - {id};
      if id in drop {
        CollectOne(m, done, result, id);
        MinusTwice(m, done, id);
        result := result + [m[id]];
        kept := kept - {id};
        done := done + {id};
      }
    }
  }

  class SnapshotManager {
    var snapshots: map<string, Snapshot>
    var order: seq<string>
    const limits: Limits

    function View(): Store
      reads this
    {
      Store(snapshots, order)
    }

    constructor (maxSnapshots: nat, ttlMs: u64)
      ensures View() == EMPTY && limits == Limits(maxSnapshots, ttlMs)
    {
      snapshots, order := map[], [];
      limits := Limits(maxSnapshots, ttlMs);
    }

    /** The eviction loop; n counts its iterations. */
    method EvictOldest() returns (n: nat)
      modifies this
      ensures (View(), n) == Evict(old(View()))
    {
      n := 0;
      while order != []
        invariant snapshots == old(snapshots)
        invariant Evict(old(View())) == (Evict(View()).0, n + Evict(View()).1)
        decreases |order|
      {
        var id := order[0];
        order := order[1..];
        n := n + 1;
        if id in snapshots {
          snapshots := snapshots - {id};
          return;
        }
      }
    }

    method CreateSnapshot(id: string, messages: seq<Message>, p: Protocol, deviceId: u64, now: u64) returns (n: nat)
      modifies this
      ensures (View(), n) == Create(limits, old(View()), Make(id, messages, p, deviceId, now))
      ensures id in snapshots && snapshots[id] ==
        Snapshot(id, messages, p, now, Total(messages, (m: Message) => |m.data|), deviceId)
    {
      var x := Make(id, messages, p, deviceId, now);
      n := 0;
      if |snapshots| >= limits.maxSnapshots {
        n := EvictOldest();
      }
      order := order + [id];
      snapshots := snapshots[id := x];
    }

    /** Returns and removes exactly the matching snapshots, each once, in any order. */
    method DrainForUplink(deviceId: u64, since: u64, now: u64) returns (result: seq<Snapshot>)
      requires Inv(limits, View())
      modifies this
      ensures View() == Without(old(View()), Matching(limits, old(View()), deviceId, since, now))
      ensures Collected(old(snapshots), Matching(limits, old(View()), deviceId, since, now), result)
      ensures forall id :: id in old(snapshots) ==>
        var x := old(snapshots)[id];
        x in result <==> x.deviceId == deviceId && x.createdAt >= since && (now - x.createdAt) % TWO64 < limits.ttlMs
    {
      var all := Matching(limits, View(), deviceId, since, now);
      snapshots, result := Take(snapshots, all);
    }

    method DeleteSnapshot(id: string) returns (found: bool)
      modifies this
      ensures View() == Without(old(View()), {id}) && found == (id in old(snapshots))
    {
      found := id in snapshots;
      snapshots := snapshots - {id};
    }

    method ClearExpiredSnapshots(now: u64)
      requires Inv(limits, View())
      modifies this
      ensures View() == Without(old(View()), Expired(limits, old(View()), now))
    {
      var expired;
      snapshots, expired := Take(snapshots, Expired(limits, View(), now));
    }
  }

  /** result lists the snapshots of the ids in done, each once. */
  ghost predicate Collected(m: map<string, Snapshot>, done: set<string>, result: seq<Snapshot>) {
    && |result| == |done| && done <= m.Keys
    && (forall i :: 0 <= i < |result| ==> result[i].id in done && result[i] == m[result[i].id])
    && (forall i, j :: 0 <= i < j < |result| ==> result[i].id != result[j].id)
    && (forall id :: id in done ==> m[id] in result)
  }

  lemma NothingCollected(m: map<string, Snapshot>)
    ensures Collected(m, {}, [])
  {
  }

  lemma OneLess(drop: set<string>, pending: set<string>, id: string)
    requires id in pending
    ensures drop - (pending - {id}) == if id in drop then (drop - pending) + {id} else drop - pending
    ensures |pending - {id}| < |pending|
  {
  }

  lemma MinusTwice(m: map<string, Snapshot>, done: set<string>, id: string)
    ensures (m - done) - {id} == m - (done + {id})
  {
  }

  lemma CollectOne(m: map<string, Snapshot>, done: set<string>, result: seq<Snapshot>, id: string)
    requires Collected(m, done, result) && id in m && id !in done && m[id].id == id
    ensures Collected(m, done + {id}, result + [m[id]])
  {
  }
}
