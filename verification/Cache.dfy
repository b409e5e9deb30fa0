/** The translation cache (src/cache.rs): a map keyed by protocol and payload hash, and a queue of its keys. */
module Cache {
  import opened Bytes
  import opened Protocols

  datatype Key = Key(protocol: Protocol, hash: u64)

  datatype Entry = Entry(message: Message, tEvent: u64, stamp: int, ttl: int)

  datatype State = State(entries: map<Key, Entry>, order: seq<Key>)

  datatype Limits = Limits(maxEntries: nat, ttl: nat)

  const EMPTY := State(map[], [])

  // ---- The key ----

  function Absorb(h: u64, b: byte): u64 {
    (h * 33 + b) % TWO64
  }

  /** djb2 in 64-bit wrapping arithmetic. */
  function Hash(data: seq<byte>): u64 {
    if data == [] then 5381 else Absorb(Hash(data[..|data| - 1]), data[|data| - 1])
  }

  method HashData(data: seq<byte>) returns (h: u64)
    ensures h == Hash(data)
  {
    h := 5381;
    for i := 0 to |data|
      invariant h == Hash(data[..i])
    {
      h := Absorb(h, data[i]);
      assert data[..i + 1][..i] == data[..i];
    }
    assert data[..|data|] == data;
  }

  /** The hash of "abc" as djb2 is published. */
  lemma HashOfAbc()
    ensures Hash([0x61, 0x62, 0x63]) == 193485963
  {
    var s: seq<byte> := [0x61, 0x62, 0x63];
    assert s[..2] == [0x61, 0x62] && s[..2][..1] == [0x61] && s[..2][..1][..0] == [];
    assert Hash(s[..2][..1]) == 177670;
    assert Hash(s[..2]) == 5863208;
  }

  function KeyOf(p: Protocol, data: seq<byte>): Key {
    Key(p, Hash(data))
  }

  /** 33 is odd, so absorbing a byte loses nothing of the hash so far, and nothing of the byte. */
  lemma AbsorbInjective(g: u64, h: u64, b: byte, c: byte)
    requires Absorb(g, b) == Absorb(h, c)
    requires g == h || b == c
    ensures g == h && b == c
  {
    var d := (g * 33 + b) / TWO64 - (h * 33 + c) / TWO64;
    assert (g - h) * 33 + (b - c) == d * TWO64;
    hide Absorb;
    if b == c {
      OddFactor(g - h, d);
    }
  }

  lemma OddFactor(x: int, d: int)
    requires x * 33 == d * TWO64 && -TWO64 < x < TWO64
    ensures x == 0
  {
    var e := x - 558992244657865200 * d;
    var f := 31 * e - 15 * d;
    assert d == 33 * f;
  }

  /** Payloads that differ in one byte never share a key. */
  lemma {:induction false} OneByteChangesKey(p: Protocol, data: seq<byte>, i: nat, c: byte)
    requires i < |data|
    ensures KeyOf(p, data[i := c]) == KeyOf(p, data) ==> c == data[i]
  {
    var k := |data| - 1;
    var other := data[i := c];
    if Hash(other) == Hash(data) {
      if i == k {
        assert other[..k] == data[..k];
        AbsorbInjective(Hash(other[..k]), Hash(data[..k]), c, data[k]);
      } else {
        AbsorbInjective(Hash(other[..k]), Hash(data[..k]), data[k], data[k]);
        assert other[..k] == data[..k][i := c];
        OneByteChangesKey(p, data[..k], i, c);
      }
    }
  }

  // ---- Operations ----

  function Lookup(s: State, key: Key, now: int): Option<Message> {
    if key in s.entries && now - s.entries[key].stamp < s.entries[key].ttl then Some(s.entries[key].message) else None
  }

  /** A full cache gives up its oldest key first, even when the new key is already there. */
  function Evicted(l: Limits, s: State): State {
    if |s.entries| >= l.maxEntries && s.order != [] then State(s.entries - {s.order[0]}, s.order[1..]) else s
  }

  function Put(l: Limits, s: State, key: Key, m: Message, now: int): State {
    var t := Evicted(l, s);
    State(t.entries[key := Entry(m, m.tEvent, now, l.ttl)], if key in t.entries then t.order else t.order + [key])
  }

  function Filter(order: seq<Key>, drop: set<Key>): seq<Key> {
    if order == [] then []
    else if order[0] in drop then Filter(order[1..], drop)
    else [order[0]] + Filter(order[1..], drop)
  }

  function Drop(s: State, drop: set<Key>): State {
    State(s.entries - drop, Filter(s.order, drop))
  }

  function OfProtocol(s: State, p: Protocol): set<Key> {
    set k | k in s.entries && k.protocol == p
  }

  function InRange(s: State, p: Protocol, start: u64, end: u64): set<Key> {
    set k | k in s.entries && k.protocol == p && start <= s.entries[k].tEvent <= end
  }

  datatype Op =
    | Set(protocol: Protocol, data: seq<byte>, message: Message, now: int)
    | InvalidateRange(protocol: Protocol, start: u64, end: u64)
    | InvalidateProtocol(protocol: Protocol)
    | Clear

  function Apply(l: Limits, s: State, op: Op): State {
    match op
    case Set(p, data, m, now) => Put(l, s, KeyOf(p, data), m, now)
    case InvalidateRange(p, start, end) => Drop(s, InRange(s, p, start, end))
    case InvalidateProtocol(p) => Drop(s, OfProtocol(s, p))
    case Clear => EMPTY
  }

  function Run(l: Limits, s: State, ops: seq<Op>): State {
    if ops == [] then s else Apply(l, Run(l, s, ops[..|ops| - 1]), ops[|ops| - 1])
  }

  lemma RunEmpty(l: Limits, s: State)
    ensures Run(l, s, []) == s
  {
  }

  lemma RunSnoc(l: Limits, s: State, ops: seq<Op>, i: nat)
    requires i < |ops|
    ensures Run(l, s, ops[..i + 1]) == Apply(l, Run(l, s, ops[..i]), ops[i])
  {
    hide Apply;
    assert ops[..i + 1][..i] == ops[..i];
  }

  // ---- The queue and the map agree ----

  predicate Distinct(order: seq<Key>) {
    forall i, j :: 0 <= i < j < |order| ==> order[i] != order[j]
  }

  function Elements(order: seq<Key>): set<Key> {
    set k | k in order
  }

  function Capacity(l: Limits): nat {
    if l.maxEntries == 0 then 1 else l.maxEntries
  }

  /** The queue holds each key of the map once and nothing else, and the map is within its capacity. */
  ghost predicate Inv(l: Limits, s: State) {
    Distinct(s.order) && Elements(s.order) == s.entries.Keys && |s.entries| <= Capacity(l)
  }

  lemma {:induction false} DistinctSize(order: seq<Key>)
    requires Distinct(order)
    ensures |Elements(order)| == |order|
  {
    if order != [] {
      var k := |order| - 1;
      DistinctSize(order[..k]);
      assert Elements(order) == Elements(order[..k]) + {order[k]};
    }
  }

  lemma ElementsTail(order: seq<Key>)
    requires order != [] && Distinct(order)
    ensures Distinct(order[1..])
    ensures Elements(order[1..]) == Elements(order) - {order[0]} && order[0] !in Elements(order[1..])
    ensures Elements(order) == {order[0]} + Elements(order[1..])
  {
    assert order == [order[0]] + order[1..];
  }

  lemma ElementsSnoc(order: seq<Key>, key: Key)
    requires Distinct(order) && key !in Elements(order)
    ensures Distinct(order + [key]) && Elements(order + [key]) == Elements(order) + {key}
  {
  }

  lemma Size(l: Limits, s: State)
    requires Inv(l, s)
    ensures |s.entries| == |s.order|
  {
    DistinctSize(s.order);
    assert |s.entries| == |s.entries.Keys|;
  }

  lemma InvFrom(l: Limits, s: State)
    requires Distinct(s.order) && Elements(s.order) == s.entries.Keys && |s.order| <= Capacity(l)
    ensures Inv(l, s)
  {
    DistinctSize(s.order);
    assert |s.entries| == |s.entries.Keys|;
  }

  lemma EvictedKeeps(l: Limits, s: State)
    requires Inv(l, s)
    ensures Inv(l, Evicted(l, s)) && |Evicted(l, s).order| < Capacity(l)
  {
    Size(l, s);
    if |s.entries| >= l.maxEntries && s.order != [] {
      hide Distinct, Elements;
      ElementsTail(s.order);
      assert (s.entries - {s.order[0]}).Keys == s.entries.Keys - {s.order[0]};
      InvFrom(l, State(s.entries - {s.order[0]}, s.order[1..]));
    }
  }

  lemma PutKeeps(l: Limits, s: State, key: Key, m: Message, now: int)
    requires Inv(l, s)
    ensures Inv(l, Put(l, s, key, m, now))
  {
    hide Evicted, Distinct, Elements;
    EvictedKeeps(l, s);
    var t := Evicted(l, s);
    var u := Put(l, s, key, m, now);
    if key in t.entries {
      assert u.entries.Keys == t.entries.Keys;
    } else {
      ElementsSnoc(t.order, key);
      assert u.entries.Keys == t.entries.Keys + {key};
    }
    InvFrom(l, u);
  }

  lemma {:induction false} FilterKeeps(order: seq<Key>, drop: set<Key>)
    requires Distinct(order)
    ensures Distinct(Filter(order, drop)) && Elements(Filter(order, drop)) == Elements(order) - drop
    ensures |Filter(order, drop)| <= |order|
  {
    if order != [] {
      ElementsTail(order);
      FilterKeeps(order[1..], drop);
      var rest := Filter(order[1..], drop);
      if order[0] in drop {
        assert Filter(order, drop) == rest;
      } else {
        ElementsCons(order[0], rest);
      }
    }
  }

  lemma ElementsCons(key: Key, order: seq<Key>)
    requires Distinct(order) && key !in Elements(order)
    ensures Distinct([key] + order) && Elements([key] + order) == {key} + Elements(order)
  {
    assert forall i :: 0 <= i < |order| ==> order[i] in Elements(order);
  }

  lemma DropKeeps(l: Limits, s: State, drop: set<Key>)
    requires Inv(l, s)
    ensures Inv(l, Drop(s, drop))
  {
    hide Distinct, Elements, Filter;
    FilterKeeps(s.order, drop);
    Size(l, s);
    assert Drop(s, drop).entries.Keys == s.entries.Keys - drop;
    InvFrom(l, Drop(s, drop));
  }

  /** Every reachable cache keeps the queue and the map in step, within capacity. */
  lemma {:induction false} RunKeeps(l: Limits, s: State, ops: seq<Op>)
    requires Inv(l, s)
    ensures Inv(l, Run(l, s, ops))
  {
    hide Inv, Put, Drop;
    if ops != [] {
      RunKeeps(l, s, ops[..|ops| - 1]);
      var t := Run(l, s, ops[..|ops| - 1]);
      match ops[|ops| - 1] {
        case Set(p, data, m, now) => PutKeeps(l, t, KeyOf(p, data), m, now);
        case InvalidateRange(p, start, end) => DropKeeps(l, t, InRange(t, p, start, end));
        case InvalidateProtocol(p) => DropKeeps(l, t, OfProtocol(t, p));
        case Clear => EmptyInv(l);
      }
    }
  }

  lemma EmptyInv(l: Limits)
    ensures Inv(l, EMPTY)
  {
    assert EMPTY.entries.Keys == {};
  }

  // ---- A hit is the latest write ----

  /** The most recent write to a key in a history. */
  function Latest(ops: seq<Op>, key: Key): Option<Op> {
    if ops == [] then None
    else
      var op := ops[|ops| - 1];
      if op.Set? && KeyOf(op.protocol, op.data) == key then Some(op) else Latest(ops[..|ops| - 1], key)
  }

  lemma {:induction false} EntryIsLatest(l: Limits, ops: seq<Op>, key: Key)
    ensures var s := Run(l, EMPTY, ops);
      key in s.entries ==>
        Latest(ops, key).Some? && var w := Latest(ops, key).value;
          w.Set? && s.entries[key] == Entry(w.message, w.message.tEvent, w.now, l.ttl)
  {
    hide Filter, Hash;
    if ops != [] {
      EntryIsLatest(l, ops[..|ops| - 1], key);
    }
  }

  /** After any run, a hit returns the message of the latest write to that key, and that write is younger than the
      time to live. */
  lemma {:induction false} HitIsLatest(l: Limits, ops: seq<Op>, key: Key, now: int)
    ensures var hit := Lookup(Run(l, EMPTY, ops), key, now);
      hit.Some? ==>
        Latest(ops, key).Some? && var w := Latest(ops, key).value;
          w.Set? && hit.value == w.message && now - w.now < l.ttl
  {
    EntryIsLatest(l, ops, key);
  }

  /** Over every run, what one more operation does to what a lookup finds. A write is found under its key until its
      time to live is over, and takes away the oldest key when the cache is full, even if it overwrites another; an
      invalidation takes away what it names, a message by its event time; nothing else changes. */
  lemma LookupAfter(l: Limits, ops: seq<Op>, op: Op, key: Key, now: int)
    ensures var s := Run(l, EMPTY, ops);
      var found, found' := Lookup(s, key, now), Lookup(Run(l, EMPTY, ops + [op]), key, now);
      && (op.Set? && key == KeyOf(op.protocol, op.data) ==>
            found' == if now - op.now < l.ttl then Some(op.message) else None)
      && (op.Set? && key != KeyOf(op.protocol, op.data) ==>
            found' == if |s.order| >= l.maxEntries && s.order != [] && key == s.order[0] then None else found)
      && (op.InvalidateProtocol? ==> found' == if key.protocol == op.protocol then None else found)
      && (op.InvalidateRange? ==>
            found' == if key.protocol == op.protocol && found.Some? && op.start <= found.value.tEvent <= op.end
                      then None else found)
      && (op.Clear? ==> found' == None)
  {
    hide Hash, Filter, Inv, Latest;
    var s := Run(l, EMPTY, ops);
    assert (ops + [op])[..|ops|] == ops;
    EmptyInv(l);
    RunKeeps(l, EMPTY, ops);
    Size(l, s);
    EntryIsLatest(l, ops, key);
  }

  // ---- How long an entry stays ----

  /** A write is found at once, whatever was there before. */
  lemma JustWritten(l: Limits, s: State, op: Op)
    requires op.Set? && l.ttl > 0
    ensures Lookup(Run(l, s, [op]), KeyOf(op.protocol, op.data), op.now) == Some(op.message)
  {
    hide Evicted, Hash;
    assert [op][..0] == [];
    assert Run(l, s, [op]) == Apply(l, Run(l, s, []), op);
  }

  predicate AllSets(ops: seq<Op>) {
    forall i :: 0 <= i < |ops| ==> ops[i].Set?
  }

  /** The number of writes a key at position i of the queue is sure to survive. */
  function Slack(l: Limits, s: State, i: nat): int {
    i + l.maxEntries - |s.order|
  }

  lemma PutSlack(l: Limits, s: State, i: nat, key: Key, m: Message, now: int) returns (j: nat)
    requires Inv(l, s) && i < |s.order| && Slack(l, s, i) > 0
    ensures var t := Put(l, s, key, m, now);
      j < |t.order| && t.order[j] == s.order[i] && Slack(l, t, j) >= Slack(l, s, i) - 1
  {
    Size(l, s);
    j := if |s.entries| >= l.maxEntries then i - 1 else i;
  }

  lemma {:induction false} Survives(l: Limits, s: State, i: nat, ops: seq<Op>) returns (j: nat)
    requires Inv(l, s) && i < |s.order| && AllSets(ops)
    requires |ops| <= Slack(l, s, i)
    ensures var t := Run(l, s, ops);
      j < |t.order| && t.order[j] == s.order[i] && Slack(l, t, j) >= Slack(l, s, i) - |ops|
  {
    hide Inv, Put;
    if ops == [] {
      j := i;
    } else {
      var k := |ops| - 1;
      j := Survives(l, s, i, ops[..k]);
      RunKeeps(l, s, ops[..k]);
      var op := ops[k];
      j := PutSlack(l, Run(l, s, ops[..k]), j, KeyOf(op.protocol, op.data), op.message, op.now);
    }
  }

  /** A key newly written to a cache of n entries is still there after any n - 1 further writes. */
  lemma FreshKeySurvives(l: Limits, s: State, first: Op, ops: seq<Op>)
    requires Inv(l, s) && first.Set? && AllSets(ops) && |ops| < l.maxEntries
    requires KeyOf(first.protocol, first.data) !in s.entries
    ensures KeyOf(first.protocol, first.data) in Run(l, Apply(l, s, first), ops).entries
  {
    hide Inv;
    var key := KeyOf(first.protocol, first.data);
    var t := Apply(l, s, first);
    PutKeeps(l, s, key, first.message, first.now);
    var _ := Survives(l, t, |t.order| - 1, ops);
    RunKeeps(l, t, ops);
    InQueue(l, Run(l, t, ops), key);
  }

  /** A message written under a new key is found by every lookup within its time to live, whatever up to max_entries - 1
      further writes put in between, unless one of them wrote that key again; then that one's message is found. */
  lemma FoundAgain(l: Limits, before: seq<Op>, first: Op, ops: seq<Op>, now: int)
    requires first.Set? && AllSets(ops) && |ops| < l.maxEntries
    requires KeyOf(first.protocol, first.data) !in Run(l, EMPTY, before).entries
    ensures var all := before + [first] + ops; var key := KeyOf(first.protocol, first.data);
      && Latest(all, key).Some? && Latest(all, key).value.Set?
      && Lookup(Run(l, EMPTY, all), key, now) ==
         if now - Latest(all, key).value.now < l.ttl then Some(Latest(all, key).value.message) else None
  {
    hide Inv, Hash, Apply, Run, Latest;
    var all, key := before + [first] + ops, KeyOf(first.protocol, first.data);
    var s := Run(l, EMPTY, before);
    EmptyInv(l);
    RunKeeps(l, EMPTY, before);
    FreshKeySurvives(l, s, first, ops);
    RunConcat(l, EMPTY, before, [first]);
    RunConcat(l, EMPTY, before + [first], ops);
    RunSnoc(l, s, [first], 0);
    assert [first][..0] == [] && [first][..1] == [first];
    RunEmpty(l, s);
    EntryIsLatest(l, all, key);
  }

  lemma {:induction false} RunConcat(l: Limits, s: State, a: seq<Op>, b: seq<Op>)
    ensures Run(l, s, a + b) == Run(l, Run(l, s, a), b)
  {
    hide Apply;
    if b == [] {
      assert a + b == a;
    } else {
      RunConcat(l, s, a, b[..|b| - 1]);
      assert (a + b)[..|a + b| - 1] == a + b[..|b| - 1];
    }
  }

  lemma InQueue(l: Limits, s: State, key: Key)
    requires Inv(l, s)
    ensures key in s.order <==> key in s.entries
  {
    assert key in s.order <==> key in Elements(s.order);
  }

  // ---- The cache ----

  method Position(order: seq<Key>, key: Key) returns (pos: Option<nat>)
    ensures pos.None? ==> key !in order
    ensures pos.Some? ==> pos.value < |order| && order[pos.value] == key && forall j :: 0 <= j < pos.value ==>
      order[j] != key
  {
    for i := 0 to |order|
      invariant forall j :: 0 <= j < i ==> order[j] != key
    {
      if order[i] == key {
        return Some(i);
      }
    }
    return None;
  }

  lemma {:induction false} FilterNone(order: seq<Key>)
    ensures Filter(order, {}) == order
  {
    if order != [] {
      FilterNone(order[1..]);
    }
  }

  lemma Prepended(x: Key, a: seq<Key>, b: seq<Key>)
    ensures ([x] + a) + b == [x] + (a + b)
  {
  }

  lemma {:induction false} FilterConcat(a: seq<Key>, b: seq<Key>, drop: set<Key>)
    ensures Filter(a + b, drop) == Filter(a, drop) + Filter(b, drop)
  {
    if a == [] {
      assert a + b == b;
    } else {
      FilterConcat(a[1..], b, drop);
      assert (a + b)[1..] == a[1..] + b && (a + b)[0] == a[0];
      Prepended(a[0], Filter(a[1..], drop), Filter(b, drop));
    }
  }

  lemma {:induction false} FilterTwice(order: seq<Key>, drop: set<Key>, key: Key)
    ensures Filter(order, drop + {key}) == Filter(Filter(order, drop), {key})
  {
    if order != [] {
      FilterTwice(order[1..], drop, key);
      assert ([order[0]] + Filter(order[1..], drop))[1..] == Filter(order[1..], drop);
    }
  }

  lemma {:induction false} FilterAbsent(f: seq<Key>, key: Key)
    requires forall i :: 0 <= i < |f| ==> f[i] != key
    ensures Filter(f, {key}) == f
  {
    if f != [] {
      FilterAbsent(f[1..], key);
    }
  }

  lemma FilterOne(key: Key)
    ensures Filter([key], {key}) == []
  {
    assert [key][1..] == [];
  }

  /** Taking a key out of a queue that has it once filters it. */
  lemma FilterRemove(f: seq<Key>, key: Key, i: nat)
    requires Distinct(f) && i < |f| && f[i] == key
    ensures Filter(f, {key}) == f[..i] + f[i + 1..]
  {
    hide Filter;
    assert f == f[..i] + ([key] + f[i + 1..]);
    FilterConcat(f[..i], [key] + f[i + 1..], {key});
    FilterConcat([key], f[i + 1..], {key});
    FilterOne(key);
    FilterAbsent(f[..i], key);
    FilterAbsent(f[i + 1..], key);
    assert [] + f[i + 1..] == f[i + 1..];
  }

  method WithoutFirst(order: seq<Key>, key: Key, ghost before: seq<Key>, ghost done: set<Key>) returns (r: seq<Key>)
    requires Distinct(before) && order == Filter(before, done)
    ensures r == Filter(before, done + {key})
  {
    hide Filter, Distinct;
    FilterTwice(before, done, key);
    var pos := Position(order, key);
    if pos.None? {
      FilterAbsent(order, key);
      return order;
    }
    FilterKeeps(before, done);
    FilterRemove(order, key, pos.value);
    return order[..pos.value] + order[pos.value + 1..];
  }

  lemma MinusTwice<V>(m: map<Key, V>, done: set<Key>, key: Key)
    ensures (m - done) - {key} == m - (done + {key})
  {
  }

  class AsyncCache {
    var entries: map<Key, Entry>
    var order: seq<Key>
    const limits: Limits

    function View(): State
      reads this
    {
      State(entries, order)
    }

    constructor (maxEntries: nat, ttl: nat)
      ensures View() == EMPTY && limits == Limits(maxEntries, ttl)
    {
      entries, order := map[], [];
      limits := Limits(maxEntries, ttl);
    }

    method Get(p: Protocol, data: seq<byte>, now: int) returns (r: Option<Message>)
      ensures r == Lookup(View(), KeyOf(p, data), now)
    {
      var h := HashData(data);
      var key := Key(p, h);
      if key in entries {
        var e := entries[key];
        return if now - e.stamp < e.ttl then Some(e.message) else None;
      }
      return None;
    }

    method Set(p: Protocol, data: seq<byte>, m: Message, now: int)
      modifies this
      ensures View() == Apply(limits, old(View()), Op.Set(p, data, m, now))
    {
      var h := HashData(data);
      var key := Key(p, h);
      if |entries| >= limits.maxEntries {
        if order != [] {
          var oldest := order[0];
          order := order[1..];
          entries := entries - {oldest};
        }
      }
      var isNew := key !in entries;
      entries := entries[key := Entry(m, m.tEvent, now, limits.ttl)];
      if isNew {
        order := order + [key];
      }
    }

    /** Looking up a batch, in one loop, is looking up each of its keys. */
    method GetBatch(queries: seq<(Protocol, seq<byte>)>, now: int) returns (r: seq<Option<Message>>)
      ensures |r| == |queries|
      ensures forall i :: 0 <= i < |queries| ==> r[i] == Lookup(View(), KeyOf(queries[i].0, queries[i].1), now)
    {
      hide Hash;
      r := [];
      for i := 0 to |queries|
        invariant |r| == i
        invariant forall j :: 0 <= j < i ==> r[j] == Lookup(View(), KeyOf(queries[j].0, queries[j].1), now)
      {
        var (p, data) := queries[i];
        var h := HashData(data);
        var key := Key(p, h);
        var found := None;
        if key in entries {
          var e := entries[key];
          if now - e.stamp < e.ttl {
            found := Some(e.message);
          }
        }
        r := r + [found];
      }
    }

    /** Writing a batch, in one loop, is writing its entries one after the other. */
    method SetBatch(batch: seq<Op>)
      requires AllSets(batch)
      modifies this
      ensures View() == Run(limits, old(View()), batch)
    {
      if batch == [] {
        return;
      }
      hide Run, Hash;
      RunEmpty(limits, View());
      for i := 0 to |batch|
        invariant View() == Run(limits, old(View()), batch[..i])
      {
        ghost var before := View();
        var op := batch[i];
        var h := HashData(op.data);
        var key := Key(op.protocol, h);
        var entry := Entry(op.message, op.message.tEvent, op.now, limits.ttl);
        if |entries| >= limits.maxEntries {
          if order != [] {
            var oldest := order[0];
            order := order[1..];
            entries := entries - {oldest};
          }
        }
        var isNew := key !in entries;
        entries := entries[key := entry];
        if isNew {
          order := order + [key];
        }
        assert View() == Apply(limits, before, op);
        RunSnoc(limits, old(View()), batch, i);
      }
      assert batch[..|batch|] == batch;
    }

    /** The closure of `retain`, applied to the keys in any order: the first occurrence of a dropped key leaves the
        queue. The queue ends up filtered, in its old order. */
    method Retain(drop: set<Key>)
      requires Inv(limits, View()) && drop <= entries.Keys
      modifies this
      ensures View() == Drop(old(View()), drop)
      ensures Inv(limits, View())
    {
      hide Filter, Distinct, Elements;
      ghost var before := View();
      ghost var done: set<Key> := {};
      var pending := entries.Keys;
      FilterNone(order);
      while pending != {}
        invariant done == drop - pending && pending <= before.entries.Keys
        invariant entries == before.entries - done
        invariant order == Filter(before.order, done)
        decreases |pending|
      {
        var key :| key in pending;
        pending := pending - {key};
        if key in drop {
          order := WithoutFirst(order, key, before.order, done);
          MinusTwice(before.entries, done, key);
          entries := entries - {key};
          done := done + {key};
        }
      }
      assert done == drop;
      DropKeeps(limits, before, drop);
    }

    method InvalidateProtocolTimeRange(p: Protocol, start: u64, end: u64)
      requires Inv(limits, View())
      modifies this
      ensures View() == Apply(limits, old(View()), InvalidateRange(p, start, end))
      ensures Inv(limits, View())
    {
      Retain(InRange(View(), p, start, end));
    }

    method Invalidate(p: Protocol)
      requires Inv(limits, View())
      modifies this
      ensures View() == Apply(limits, old(View()), InvalidateProtocol(p))
      ensures Inv(limits, View())
    {
      Retain(OfProtocol(View(), p));
    }

    method Clear()
      modifies this
      ensures View() == EMPTY
    {
      entries, order := map[], [];
    }
  }
}
