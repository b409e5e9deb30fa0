/** The gateway's use of the translation cache (src/gateway.rs): the emergency path, the shard workers and the spread
    drain write what they translate, the batch path answers from the cache. */
module Gateway {
  import opened Bytes
  import opened Protocols
  import Cache
  import Translator

  /** A message with the monotonic clock of its cache entry and the wall clock of its translation. */
  datatype Stamped = Stamped(message: Message, now: int, wall: u64)

  datatype Event =
    | Process(items: seq<Stamped>)
    | Route(messages: seq<Message>, now: int)

  // ---- What is written and what is emitted ----

  /** The cache writes of a processed batch: nothing for messages that do not translate. */
  function Writes(zstd: Translator.Compressor, items: seq<Stamped>): seq<Cache.Op> {
    if items == [] then []
    else
      var x := items[|items| - 1];
      Writes(zstd, items[..|items| - 1]) +
      match Translator.TranslateSync(zstd, x.message, x.wall)
      case None => []
      case Some(t) => [Cache.Set(x.message.protocol, x.message.data, t, x.now)]
  }

  function Answer(s: Cache.State, m: Message, now: int): Option<Message> {
    Cache.Lookup(s, Cache.KeyOf(m.protocol, m.data), now)
  }

  /** The hits of a routed batch, each with the message it answers. */
  function Hits(s: Cache.State, messages: seq<Message>, now: int): seq<(Message, Message)> {
    if messages == [] then []
    else
      var m := messages[|messages| - 1];
      Hits(s, messages[..|messages| - 1], now) +
      match Answer(s, m, now)
      case None => []
      case Some(t) => [(m, t)]
  }

  function Misses(s: Cache.State, messages: seq<Message>, now: int): seq<Message> {
    if messages == [] then []
    else
      var m := messages[|messages| - 1];
      Misses(s, messages[..|messages| - 1], now) + if Answer(s, m, now).None? then [m] else []
  }

  /** The cache after a run that starts with an empty cache. */
  function CacheAfter(zstd: Translator.Compressor, l: Cache.Limits, events: seq<Event>): Cache.State {
    if events == [] then Cache.EMPTY
    else
      var s := CacheAfter(zstd, l, events[..|events| - 1]);
      var e := events[|events| - 1];
      if e.Process? then Cache.Run(l, s, Writes(zstd, e.items)) else s
  }

  /** All messages processed in a run, routed in a run, and missed in a run, in order. */
  function Items(events: seq<Event>): seq<Stamped> {
    if events == [] then []
    else
      var e := events[|events| - 1];
      Items(events[..|events| - 1]) + if e.Process? then e.items else []
  }

  function Routed(events: seq<Event>): seq<Message> {
    if events == [] then []
    else
      var e := events[|events| - 1];
      Routed(events[..|events| - 1]) + if e.Route? then e.messages else []
  }

  function Missed(zstd: Translator.Compressor, l: Cache.Limits, events: seq<Event>): seq<Message> {
    if events == [] then []
    else
      var e := events[|events| - 1];
      Missed(zstd, l, events[..|events| - 1]) +
      if e.Route? then Misses(CacheAfter(zstd, l, events[..|events| - 1]), e.messages, e.now) else []
  }

  /** All hits emitted in a run. */
  function Emitted(zstd: Translator.Compressor, l: Cache.Limits, events: seq<Event>): seq<(Message, Message)> {
    if events == [] then []
    else
      var e := events[|events| - 1];
      Emitted(zstd, l, events[..|events| - 1]) +
      if e.Route? then Hits(CacheAfter(zstd, l, events[..|events| - 1]), e.messages, e.now) else []
  }

  class TranslationPath {
    const zstd: Translator.Compressor
    const cache: Cache.AsyncCache

    constructor (zstd: Translator.Compressor, cache: Cache.AsyncCache)
      ensures this.zstd == zstd && this.cache == cache
    {
      this.zstd := zstd;
      this.cache := cache;
    }

    /** The emergency path: translate, write, send. */
    method ProcessEmergency(x: Stamped) returns (sent: Option<Message>)
      modifies cache
      ensures sent == Translator.TranslateSync(zstd, x.message, x.wall)
      ensures cache.View() == Cache.Run(cache.limits, old(cache.View()), Writes(zstd, [x]))
    {
      hide Translator.TranslateSync, Cache.Apply;
      sent := Translator.TranslateSync(zstd, x.message, x.wall);
      assert [x][..0] == [];
      if sent.Some? {
        cache.Set(x.message.protocol, x.message.data, sent.value, x.now);
        assert Writes(zstd, [x]) == [Cache.Set(x.message.protocol, x.message.data, sent.value, x.now)];
        assert Writes(zstd, [x])[..0] == [];
      } else {
        assert Writes(zstd, [x]) == [];
      }
    }

    /** A worker's batch, or a drain of the spread shard: translate each, write all, send all. */
    method ProcessBatch(items: seq<Stamped>) returns (sent: seq<Message>)
      modifies cache
      ensures cache.View() == Cache.Run(cache.limits, old(cache.View()), Writes(zstd, items))
      ensures |sent| == |Writes(zstd, items)|
      ensures forall i :: 0 <= i < |sent| ==> Writes(zstd, items)[i].Set? && Writes(zstd, items)[i].message == sent[i]
    {
      hide Translator.TranslateSync, Cache.Apply;
      sent := [];
      var writes: seq<Cache.Op> := [];
      for i := 0 to |items|
        invariant writes == Writes(zstd, items[..i])
        invariant |sent| == |writes|
        invariant forall j :: 0 <= j < |writes| ==> writes[j].Set? && writes[j].message == sent[j]
      {
        var x := items[i];
        assert items[..i + 1][..i] == items[..i];
        match Translator.TranslateSync(zstd, x.message, x.wall) {
          case Some(t) =>
            writes := writes + [Cache.Set(x.message.protocol, x.message.data, t, x.now)];
            sent := sent + [t];
          case None =>
        }
      }
      assert items[..|items|] == items;
      cache.SetBatch(writes);
    }

    /** The batch path: hits go out at once, misses go to the shards. */
    method RouteBatch(messages: seq<Message>, now: int) returns (hits: seq<(Message, Message)>, misses: seq<Message>)
      ensures hits == Hits(cache.View(), messages, now)
      ensures misses == Misses(cache.View(), messages, now)
    {
      hide Cache.Lookup, Cache.Hash;
      var queries := seq(|messages|, i requires 0 <= i < |messages| => (messages[i].protocol, messages[i].data));
      var results := cache.GetBatch(queries, now);
      hits, misses := [], [];
      for i := 0 to |messages|
        invariant hits == Hits(cache.View(), messages[..i], now)
        invariant misses == Misses(cache.View(), messages[..i], now)
      {
        assert messages[..i + 1][..i] == messages[..i];
        assert results[i] == Answer(cache.View(), messages[i], now);
        match results[i] {
          case Some(t) => hits := hits + [(messages[i], t)];
          case None => misses := misses + [messages[i]];
        }
      }
      assert messages[..|messages|] == messages;
    }
  }

  // ---- Every routed message is answered or passed on, once ----

  /** The messages whose flag is as wanted, in order. */
  function Picked(ms: seq<Message>, flags: seq<bool>, want: bool): seq<Message>
    requires |flags| == |ms|
  {
    if ms == [] then []
    else
      var k := |ms| - 1;
      Picked(ms[..k], flags[..k], want) + if flags[k] == want then [ms[k]] else []
  }

  lemma {:induction false} PickedConcat(a: seq<Message>, f: seq<bool>, b: seq<Message>, g: seq<bool>, want: bool)
    requires |f| == |a| && |g| == |b|
    ensures Picked(a + b, f + g, want) == Picked(a, f, want) + Picked(b, g, want)
  {
    if b == [] {
      assert a + b == a && f + g == f;
    } else {
      var k := |b| - 1;
      PickedConcat(a, f, b[..k], g[..k], want);
      assert (a + b)[..|a + b| - 1] == a + b[..k] && (f + g)[..|f + g| - 1] == f + g[..k];
    }
  }

  lemma SplitGrows<T>(yes: seq<T>, no: seq<T>, all: seq<T>, x: T)
    requires multiset(yes) + multiset(no) == multiset(all)
    ensures multiset(yes + [x]) + multiset(no) == multiset(all + [x])
    ensures multiset(yes) + multiset(no + [x]) == multiset(all + [x])
  {
  }

  lemma PickedLast(ms: seq<Message>, flags: seq<bool>)
    requires |flags| == |ms| > 0
    ensures var k := |ms| - 1;
      var yes, no := Picked(ms[..k], flags[..k], true), Picked(ms[..k], flags[..k], false);
      && Picked(ms, flags, true) == (if flags[k] then yes + [ms[k]] else yes)
      && Picked(ms, flags, false) == (if flags[k] then no else no + [ms[k]])
  {
  }

  lemma {:induction false} PickedAll(ms: seq<Message>, flags: seq<bool>)
    requires |flags| == |ms|
    ensures multiset(Picked(ms, flags, true)) + multiset(Picked(ms, flags, false)) == multiset(ms)
    ensures |Picked(ms, flags, true)| + |Picked(ms, flags, false)| == |ms|
  {
    hide Picked;
    if ms == [] {
      PickedNone();
      assert flags == [];
    } else {
      var k := |ms| - 1;
      PickedAll(ms[..k], flags[..k]);
      PickedLast(ms, flags);
      SplitGrows(Picked(ms[..k], flags[..k], true), Picked(ms[..k], flags[..k], false), ms[..k], ms[k]);
      assert ms == ms[..k] + [ms[k]];
    }
  }

  /** The messages that hits answer. */
  function Originals(hits: seq<(Message, Message)>): seq<Message> {
    seq(|hits|, i requires 0 <= i < |hits| => hits[i].0)
  }

  /** A routed batch falls into hits and misses, each in order: the messages found in the cache, each with what was
      found for it, and the others. */
  lemma {:induction false} BatchSplits(s: Cache.State, messages: seq<Message>, now: int, flags: seq<bool>)
    requires |flags| == |messages|
    requires forall i :: 0 <= i < |flags| ==> flags[i] == Answer(s, messages[i], now).Some?
    ensures Originals(Hits(s, messages, now)) == Picked(messages, flags, true)
    ensures Misses(s, messages, now) == Picked(messages, flags, false)
    ensures forall i :: 0 <= i < |Hits(s, messages, now)| ==>
      Answer(s, Hits(s, messages, now)[i].0, now) == Some(Hits(s, messages, now)[i].1)
  {
    hide Answer;
    if messages != [] {
      var k := |messages| - 1;
      BatchSplits(s, messages[..k], now, flags[..k]);
      var before, m := Hits(s, messages[..k], now), messages[k];
      if flags[k] {
        var t := Answer(s, m, now).value;
        assert Originals(before + [(m, t)]) == Originals(before) + [m];
      }
    }
  }

  /** Over every run, each routed message is in exactly one of the two outputs: the hits answer some of them and the
      misses are the others, both in the order in which they were routed. */
  lemma {:induction false} RoutedOnce(zstd: Translator.Compressor, l: Cache.Limits, events: seq<Event>)
    returns (flags: seq<bool>)
    ensures |flags| == |Routed(events)|
    ensures Originals(Emitted(zstd, l, events)) == Picked(Routed(events), flags, true)
    ensures Missed(zstd, l, events) == Picked(Routed(events), flags, false)
    ensures multiset(Originals(Emitted(zstd, l, events))) + multiset(Missed(zstd, l, events))
         == multiset(Routed(events))
    ensures |Emitted(zstd, l, events)| + |Missed(zstd, l, events)| == |Routed(events)|
  {
    hide CacheAfter, Hits, Misses, Answer, Picked;
    if events == [] {
      flags := [];
      PickedNone();
      assert Originals([]) == [];
    } else {
      var k := |events| - 1;
      var e := events[k];
      flags := RoutedOnce(zstd, l, events[..k]);
      if e.Route? {
        var s := CacheAfter(zstd, l, events[..k]);
        var more := seq(|e.messages|, i requires 0 <= i < |e.messages| => Answer(s, e.messages[i], e.now).Some?);
        BatchSplits(s, e.messages, e.now, more);
        PickedConcat(Routed(events[..k]), flags, e.messages, more, true);
        PickedConcat(Routed(events[..k]), flags, e.messages, more, false);
        OriginalsConcat(Emitted(zstd, l, events[..k]), Hits(s, e.messages, e.now));
        flags := flags + more;
      } else {
        assert Routed(events) == Routed(events[..k]) && Missed(zstd, l, events) == Missed(zstd, l, events[..k]);
        assert Emitted(zstd, l, events) == Emitted(zstd, l, events[..k]);
      }
    }
    PickedAll(Routed(events), flags);
  }

  lemma PickedNone()
    ensures Picked([], [], true) == [] == Picked([], [], false)
  {
  }

  lemma OriginalsConcat(a: seq<(Message, Message)>, b: seq<(Message, Message)>)
    ensures Originals(a + b) == Originals(a) + Originals(b)
  {
  }

  // ---- Every hit is the latest translation under its key ----

  lemma {:induction false} WritesConcat(zstd: Translator.Compressor, a: seq<Stamped>, b: seq<Stamped>)
    ensures Writes(zstd, a + b) == Writes(zstd, a) + Writes(zstd, b)
  {
    hide Translator.TranslateSync;
    if b == [] {
      assert a + b == a;
    } else {
      var k := |b| - 1;
      WritesConcat(zstd, a, b[..k]);
      assert (a + b)[..|a + b| - 1] == a + b[..k];
    }
  }

  lemma WritesOne(zstd: Translator.Compressor, x: Stamped)
    ensures var t := Translator.TranslateSync(zstd, x.message, x.wall);
      Writes(zstd, [x]) ==
        if t.Some? then [Cache.Set(x.message.protocol, x.message.data, t.value, x.now)] else []
  {
    hide Translator.TranslateSync;
    assert [x][..0] == [];
  }

  /** Each processed message that translates is written, in its place, under its own protocol and payload. */
  lemma WritesSplit(zstd: Translator.Compressor, a: seq<Stamped>, x: Stamped, b: seq<Stamped>)
    ensures var t := Translator.TranslateSync(zstd, x.message, x.wall);
      Writes(zstd, a + [x] + b) ==
        Writes(zstd, a)
        + (if t.Some? then [Cache.Set(x.message.protocol, x.message.data, t.value, x.now)] else [])
        + Writes(zstd, b)
  {
    hide Translator.TranslateSync, Writes;
    WritesConcat(zstd, a, [x]);
    WritesConcat(zstd, a + [x], b);
    WritesOne(zstd, x);
  }

  /** The cache after a run is what writing all its translations one after the other leaves. */
  lemma {:induction false} CacheIsHistory(zstd: Translator.Compressor, l: Cache.Limits, events: seq<Event>)
    ensures CacheAfter(zstd, l, events) == Cache.Run(l, Cache.EMPTY, Writes(zstd, Items(events)))
  {
    hide Cache.Apply, Writes;
    if events == [] {
      assert Writes(zstd, []) == [] by {
        WritesNone(zstd);
      }
    } else {
      var k := |events| - 1;
      CacheIsHistory(zstd, l, events[..k]);
      if events[k].Process? {
        WritesConcat(zstd, Items(events[..k]), events[k].items);
        Cache.RunConcat(l, Cache.EMPTY, Writes(zstd, Items(events[..k])), Writes(zstd, events[k].items));
      } else {
        assert Items(events) == Items(events[..k]);
      }
    }
  }

  lemma WritesNone(zstd: Translator.Compressor)
    ensures Writes(zstd, []) == []
  {
  }

  /** Every message of a run is one of ms. */
  ghost predicate Within(events: seq<Event>, ms: set<Message>) {
    forall i :: 0 <= i < |events| ==>
      match events[i]
      case Process(items) => forall j :: 0 <= j < |items| ==> items[j].message in ms
      case Route(messages, _) => forall j :: 0 <= j < |messages| ==> messages[j] in ms
  }

  lemma {:induction false} ItemsWithin(events: seq<Event>, ms: set<Message>)
    requires Within(events, ms)
    ensures forall i :: 0 <= i < |Items(events)| ==> Items(events)[i].message in ms
  {
    if events != [] {
      ItemsWithin(events[..|events| - 1], ms);
    }
  }

  /** The last of some processed messages that translates and has the key of m. */
  ghost function LatestFor(zstd: Translator.Compressor, items: seq<Stamped>, m: Message): Option<Stamped> {
    if items == [] then None
    else
      var x := items[|items| - 1];
      if SameKey(x.message, m) && Translator.TranslateSync(zstd, x.message, x.wall).Some? then Some(x)
      else LatestFor(zstd, items[..|items| - 1], m)
  }

  lemma {:induction false} LatestForIn(zstd: Translator.Compressor, items: seq<Stamped>, m: Message)
    ensures var x := LatestFor(zstd, items, m);
      x.Some? ==>
        && x.value in items && SameKey(x.value.message, m)
        && Translator.TranslateSync(zstd, x.value.message, x.value.wall).Some?
  {
    hide Translator.TranslateSync, SameKey;
    if items != [] {
      LatestForIn(zstd, items[..|items| - 1], m);
    }
  }

  /** The write made for a processed message. */
  ghost predicate IsWrite(zstd: Translator.Compressor, w: Cache.Op, x: Stamped) {
    var t := Translator.TranslateSync(zstd, x.message, x.wall);
    t.Some? && w == Cache.Set(x.message.protocol, x.message.data, t.value, x.now)
  }

  lemma LatestSnoc(ops: seq<Cache.Op>, op: Cache.Op, m: Message)
    requires op.Set?
    ensures var key := Cache.KeyOf(m.protocol, m.data);
      Cache.Latest(ops + [op], key) ==
        if Cache.KeyOf(op.protocol, op.data) == key then Some(op) else Cache.Latest(ops, key)
  {
    hide Cache.Hash;
    assert (ops + [op])[..|ops|] == ops;
  }

  lemma {:induction false} LatestWrite(zstd: Translator.Compressor, items: seq<Stamped>, m: Message)
    ensures var x := LatestFor(zstd, items, m);
      var w := Cache.Latest(Writes(zstd, items), Cache.KeyOf(m.protocol, m.data));
      (x.Some? <==> w.Some?) && (x.Some? ==> IsWrite(zstd, w.value, x.value))
  {
    hide Translator.TranslateSync, Cache.Hash;
    if items != [] {
      hide Cache.Latest;
      var k := |items| - 1;
      var x, before := items[k], Writes(zstd, items[..k]);
      LatestWrite(zstd, items[..k], m);
      var t := Translator.TranslateSync(zstd, x.message, x.wall);
      if t.Some? {
        LatestSnoc(before, Cache.Set(x.message.protocol, x.message.data, t.value, x.now), m);
      } else {
        assert Writes(zstd, items) == before;
      }
    }
  }

  /** After any run, a message is a hit only if a processed message with its protocol and payload hash was translated
      within the time to live; and then what it gets is the translation of the latest of these. */
  lemma HitWrittenFor(zstd: Translator.Compressor, l: Cache.Limits, events: seq<Event>, m: Message, now: int)
    ensures var x := LatestFor(zstd, Items(events), m);
      Answer(CacheAfter(zstd, l, events), m, now).Some? ==>
        && x.Some? && now - x.value.now < l.ttl
        && Answer(CacheAfter(zstd, l, events), m, now)
           == Translator.TranslateSync(zstd, x.value.message, x.value.wall)
  {
    hide Translator.TranslateSync, Cache.Latest, Writes, LatestFor;
    var key := Cache.KeyOf(m.protocol, m.data);
    CacheIsHistory(zstd, l, events);
    Cache.HitIsLatest(l, Writes(zstd, Items(events)), key, now);
    LatestWrite(zstd, Items(events), m);
  }

  /** After any run, a message is a hit if the first processed message with its key that was translated has been
      followed by fewer than max_entries others, and the latest one is within the time to live. */
  lemma HitWhileKept(zstd: Translator.Compressor, l: Cache.Limits, events: seq<Event>, before: seq<Stamped>, x: Stamped,
      after: seq<Stamped>, m: Message, now: int)
    requires Items(events) == before + [x] + after && |after| < l.maxEntries
    requires SameKey(x.message, m) && Translator.TranslateSync(zstd, x.message, x.wall).Some?
    requires LatestFor(zstd, before, m).None?
    ensures var last := LatestFor(zstd, Items(events), m);
      && last.Some?
      && Answer(CacheAfter(zstd, l, events), m, now) ==
           if now - last.value.now < l.ttl then Translator.TranslateSync(zstd, last.value.message, last.value.wall)
           else None
  {
    hide Translator.TranslateSync, Cache.Latest, Cache.Hash, Cache.Lookup, Writes, LatestFor;
    var key := Cache.KeyOf(m.protocol, m.data);
    var ops, rest := Writes(zstd, before), Writes(zstd, after);
    var t := Translator.TranslateSync(zstd, x.message, x.wall).value;
    var first := Cache.Set(x.message.protocol, x.message.data, t, x.now);
    CacheIsHistory(zstd, l, events);
    WritesSplit(zstd, before, x, after);
    LatestWrite(zstd, before, m);
    LatestWrite(zstd, Items(events), m);
    Cache.EntryIsLatest(l, ops, key);
    OnlySets(zstd, after);
    Cache.FoundAgain(l, ops, first, rest, now);
  }

  lemma {:induction false} OnlySets(zstd: Translator.Compressor, items: seq<Stamped>)
    ensures Cache.AllSets(Writes(zstd, items)) && |Writes(zstd, items)| <= |items|
  {
    hide Translator.TranslateSync;
    if items != [] {
      OnlySets(zstd, items[..|items| - 1]);
    }
  }

  // ---- When hits agree with translating anew ----

  ghost predicate SameKey(x: Message, y: Message) {
    Cache.KeyOf(x.protocol, x.data) == Cache.KeyOf(y.protocol, y.data)
  }

  /** The payload of the translated message; None if translation fails. */
  function Payload(zstd: Translator.Compressor, m: Message): Option<seq<byte>> {
    match Translator.TranslateSync(zstd, m, 0)
    case None => None
    case Some(t) => Some(t.data)
  }

  /** t has the protocol and the payload that translating m would give. */
  predicate Agrees(zstd: Translator.Compressor, m: Message, t: Message) {
    t.protocol == ASTSpaceMobile && Payload(zstd, m) == Some(t.data)
  }

  ghost predicate HitsAgree(zstd: Translator.Compressor, hits: seq<(Message, Message)>) {
    forall i :: 0 <= i < |hits| ==> Agrees(zstd, hits[i].0, hits[i].1)
  }

  /** Messages with one key translate alike. */
  ghost predicate Faithful(zstd: Translator.Compressor, ms: set<Message>) {
    forall x, y :: x in ms && y in ms && SameKey(x, y) && Payload(zstd, x).Some? ==>
      Payload(zstd, y) == Payload(zstd, x)
  }

  lemma TranslationAgrees(zstd: Translator.Compressor, m: Message, wall: u64)
    ensures var t := Translator.TranslateSync(zstd, m, wall);
      (t.Some? <==> Payload(zstd, m).Some?) && (t.Some? ==> Agrees(zstd, m, t.value))
  {
    hide Translator.TranslateData;
  }

  lemma {:induction false} RoutedAgree(
    zstd: Translator.Compressor, l: Cache.Limits, events: seq<Event>, ms: set<Message>, messages: seq<Message>,
      now: int)
    requires Within(events, ms) && Faithful(zstd, ms)
    requires forall j :: 0 <= j < |messages| ==> messages[j] in ms
    ensures HitsAgree(zstd, Hits(CacheAfter(zstd, l, events), messages, now))
  {
    hide Within, Faithful, Agrees, Answer;
    if messages != [] {
      var k := |messages| - 1;
      RoutedAgree(zstd, l, events, ms, messages[..k], now);
      var m := messages[k];
      if Answer(CacheAfter(zstd, l, events), m, now).Some? {
        AnswerAgrees(zstd, l, events, ms, m, now);
      }
    }
  }

  lemma AnswerAgrees(zstd: Translator.Compressor, l: Cache.Limits, events: seq<Event>, ms: set<Message>, m: Message,
      now: int)
    requires Within(events, ms) && Faithful(zstd, ms) && m in ms
    requires Answer(CacheAfter(zstd, l, events), m, now).Some?
    ensures Agrees(zstd, m, Answer(CacheAfter(zstd, l, events), m, now).value)
  {
    hide Within, Answer, Payload, Translator.TranslateSync, SameKey, Items, LatestFor;
    HitWrittenFor(zstd, l, events, m, now);
    LatestForIn(zstd, Items(events), m);
    ItemsWithin(events, ms);
    var x := LatestFor(zstd, Items(events), m).value;
    TranslationAgrees(zstd, x.message, x.wall);
  }

  lemma {:induction false} FaithfulAgree(zstd: Translator.Compressor, l: Cache.Limits, events: seq<Event>,
      ms: set<Message>)
    requires Within(events, ms) && Faithful(zstd, ms)
    ensures HitsAgree(zstd, Emitted(zstd, l, events))
  {
    hide Faithful, Agrees, CacheAfter, Hits;
    if events != [] {
      var k := |events| - 1;
      FaithfulAgree(zstd, l, events[..k], ms);
      if events[k].Route? {
        RoutedAgree(zstd, l, events[..k], ms, events[k].messages, events[k].now);
      }
    }
  }

  /** One message is processed and another routed right after: a run that emits the first one's translation for the
      second whenever they share a key. */
  lemma OneHit(zstd: Translator.Compressor, l: Cache.Limits, x: Message, y: Message) returns (events: seq<Event>)
    requires l.ttl > 0 && SameKey(x, y) && Payload(zstd, x).Some?
    ensures Within(events, {x, y})
    ensures Emitted(zstd, l, events) == [(y, Translator.TranslateSync(zstd, x, 0).value)]
  {
    hide Translator.TranslateSync, Hits, Writes, Cache.Run;
    var first, second := Process([Stamped(x, 0, 0)]), Route([y], 0);
    events := [first, second];
    assert [first][..0] == [] && events[..1] == [first];
    WrittenThenFound(zstd, l, x, y);
    assert CacheAfter(zstd, l, [first]) == Cache.Run(l, Cache.EMPTY, Writes(zstd, first.items));
    assert Emitted(zstd, l, [first]) == [];
  }

  lemma WrittenThenFound(zstd: Translator.Compressor, l: Cache.Limits, x: Message, y: Message)
    requires l.ttl > 0 && SameKey(x, y) && Payload(zstd, x).Some?
    ensures Hits(Cache.Run(l, Cache.EMPTY, Writes(zstd, [Stamped(x, 0, 0)])), [y], 0) ==
            [(y, Translator.TranslateSync(zstd, x, 0).value)]
  {
    hide Translator.TranslateSync, Cache.Lookup, Cache.Run;
    var t := Translator.TranslateSync(zstd, x, 0).value;
    var op := Cache.Set(x.protocol, x.data, t, 0);
    assert Writes(zstd, [Stamped(x, 0, 0)]) == [op] by {
      assert [Stamped(x, 0, 0)][..0] == [];
    }
    var s := Cache.Run(l, Cache.EMPTY, [op]);
    Cache.JustWritten(l, Cache.EMPTY, op);
    assert Hits(s, [y], 0) == [(y, t)] by {
      assert [y][..0] == [];
    }
  }

  /** Over all runs on the messages ms, every hit agrees with translating anew if and only if messages of ms with one
      key translate alike. */
  lemma HitsAgreeIff(zstd: Translator.Compressor, l: Cache.Limits, ms: set<Message>)
    requires l.ttl > 0
    ensures (forall events :: Within(events, ms) ==> HitsAgree(zstd, Emitted(zstd, l, events))) <==> Faithful(zstd, ms)
  {
    hide Emitted, SameKey, Payload;
    if Faithful(zstd, ms) {
      forall events | Within(events, ms) ensures HitsAgree(zstd, Emitted(zstd, l, events)) {
        FaithfulAgree(zstd, l, events, ms);
      }
    } else {
      var x, y :| x in ms && y in ms && SameKey(x, y) && Payload(zstd, x).Some? && Payload(zstd, y) != Payload(zstd, x);
      var events := OneHit(zstd, l, x, y);
      TranslationAgrees(zstd, x, 0);
      assert Within(events, ms);
      assert !HitsAgree(zstd, Emitted(zstd, l, events)) by {
        assert !Agrees(zstd, Emitted(zstd, l, events)[0].0, Emitted(zstd, l, events)[0].1);
      }
    }
  }

  /** Without hash collisions among the payloads of one protocol, every hit agrees. */
  lemma NoCollisionFaithful(zstd: Translator.Compressor, ms: set<Message>)
    requires forall x, y :: x in ms && y in ms && SameKey(x, y) ==> x.data == y.data
    ensures Faithful(zstd, ms)
  {
    hide Translator.TranslateData;
    assert forall x, y :: SameKey(x, y) ==> x.protocol == y.protocol;
  }

  lemma CollidingHashes()
    ensures Cache.Hash([0, 33]) == Cache.Hash([1, 0])
  {
    assert [0, 33][..1] == [0] && [1, 0][..1] == [1] && [0][..0] == [] == [1][..0];
  }

  /** The hash alone does not rule collisions out: two NIDD payloads with one key and two translations. */
  lemma CollisionExists(zstd: Translator.Compressor) returns (x: Message, y: Message)
    ensures SameKey(x, y) && !Faithful(zstd, {x, y})
  {
    x := Message(NIDD, [0, 33], Operational, 0, 0, 0);
    y := Message(NIDD, [1, 0], Operational, 0, 0, 0);
    CollidingHashes();
    hide Cache.Hash, Translator.TranslateSync;
    Translator.PlainTranslation(zstd, x, 0);
    Translator.PlainTranslation(zstd, y, 0);
    assert x.data[..2] == x.data && y.data[..2] == y.data;
    assert Payload(zstd, x) == Some([0, 33]) && Payload(zstd, y) == Some([1, 0]);
    assert [0, 33][0] != [1, 0][0];
    assert x in {x, y} && y in {x, y};
  }
}
