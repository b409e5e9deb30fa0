/** The bi-temporal reconciler (src/otel_reconciler.rs): records of each entity in order of arrival, and what was
    believed at a transaction time. */
module Reconciler {
  import opened Bytes
  import CompactSpan
  import opened Converter

  type Text = CompactSpan.Text

  datatype Record = Record(entityId: Text, tEvent: i64, tSystem: i64, span: OtlpSpan)

  type Records = map<Text, seq<Record>>

  datatype Op =
    | Ingest(span: OtlpSpan)
    | Correct(span: OtlpSpan, newTEvent: i64)

  /** A correction brings its own valid time; the transaction time is always the span's. */
  function RecordOf(op: Op): Record {
    match op
    case Ingest(span) =>
      Record(EntityId(span), ReadTime(span.attributes, T_EVENT), ReadTime(span.attributes, T_SYSTEM), span)
    case Correct(span, newTEvent) =>
      Record(EntityId(span), newTEvent, ReadTime(span.attributes, T_SYSTEM), span)
  }

  function Of(s: Records, e: Text): seq<Record> {
    if e in s then s[e] else []
  }

  function Add(s: Records, r: Record): Records {
    s[r.entityId := Of(s, r.entityId) + [r]]
  }

  function Run(ops: seq<Op>): Records {
    if ops == [] then map[] else Add(Run(ops[..|ops| - 1]), RecordOf(ops[|ops| - 1]))
  }

  // ---- Beliefs ----

  /** A record takes the place of the belief b when it is not older. */
  predicate Supersedes(r: Record, b: Option<Record>) {
    b.None? || r.tSystem >= b.value.tSystem
  }

  /** The last of the records with the largest transaction time up to t. */
  function Latest(rs: seq<Record>, t: i64): Option<Record> {
    if rs == [] then None
    else
      var b := Latest(rs[..|rs| - 1], t);
      var r := rs[|rs| - 1];
      if r.tSystem <= t && Supersedes(r, b) then Some(r) else b
  }

  function Belief(s: Records, t: i64, e: Text): Option<Record> {
    Latest(Of(s, e), t)
  }

  /** What the system believed at t, entity by entity. */
  function Beliefs(s: Records, t: i64): map<Text, Record> {
    map e | e in s && Belief(s, t, e).Some? :: Belief(s, t, e).value
  }

  // ---- What a belief is ----

  /** Record i is at or before t, none at or before t is newer, and no later one is as new. */
  ghost predicate IsLatest(rs: seq<Record>, t: i64, i: nat) {
    && i < |rs| && rs[i].tSystem <= t
    && (forall j :: 0 <= j < |rs| && rs[j].tSystem <= t ==> rs[j].tSystem <= rs[i].tSystem)
    && (forall j :: i < j < |rs| && rs[j].tSystem <= t ==> rs[j].tSystem < rs[i].tSystem)
  }

  ghost predicate NoneBy(rs: seq<Record>, t: i64) {
    forall j :: 0 <= j < |rs| ==> rs[j].tSystem > t
  }

  /** There is a belief exactly when there is a record at or before t, and it is the newest, the last arrived among
      equals. */
  lemma {:induction false} LatestIs(rs: seq<Record>, t: i64)
    ensures Latest(rs, t).None? <==> NoneBy(rs, t)
    ensures Latest(rs, t).Some? ==> exists i: nat :: i < |rs| && IsLatest(rs, t, i) && Latest(rs, t) == Some(rs[i])
  {
    hide IsLatest, NoneBy;
    if rs == [] {
      NoneByEmpty(t);
    } else {
      var k := |rs| - 1;
      LatestIs(rs[..k], t);
      if Latest(rs[..k], t).None? {
        NewestAlone(rs, t);
      } else {
        var i: nat :| i < k && IsLatest(rs[..k], t, i) && Latest(rs[..k], t) == Some(rs[..k][i]);
        NewestOver(rs, t, i);
      }
    }
  }

  lemma NoneByEmpty(t: i64)
    ensures NoneBy([], t)
  {
  }

  lemma NewestAlone(rs: seq<Record>, t: i64)
    requires rs != [] && NoneBy(rs[..|rs| - 1], t)
    ensures var k := |rs| - 1; if rs[k].tSystem <= t then IsLatest(rs, t, k) && !NoneBy(rs, t) else NoneBy(rs, t)
  {
    assert forall j :: 0 <= j < |rs| - 1 ==> rs[..|rs| - 1][j] == rs[j];
  }

  lemma NewestOver(rs: seq<Record>, t: i64, i: nat)
    requires rs != [] && IsLatest(rs[..|rs| - 1], t, i)
    ensures var k := |rs| - 1;
      && i < k && rs[..k][i] == rs[i] && !NoneBy(rs, t)
      && if rs[k].tSystem <= t && rs[k].tSystem >= rs[i].tSystem then IsLatest(rs, t, k) else IsLatest(rs, t, i)
  {
    assert forall j :: 0 <= j < |rs| - 1 ==> rs[..|rs| - 1][j] == rs[j];
  }

  // ---- Runs ----

  /** The complete effect of a new record on the beliefs at t. */
  lemma AddEffect(s: Records, r: Record, t: i64, e: Text)
    ensures Belief(Add(s, r), t, e) ==
      if e == r.entityId && r.tSystem <= t && Supersedes(r, Belief(s, t, e)) then Some(r) else Belief(s, t, e)
  {
    if e == r.entityId {
      var rs := Of(s, e);
      assert (rs + [r])[..|rs|] == rs;
    }
  }

  /** The records of an entity, in order of arrival. */
  function Arrived(ops: seq<Op>, e: Text): seq<Record> {
    if ops == [] then []
    else
      var r := RecordOf(ops[|ops| - 1]);
      Arrived(ops[..|ops| - 1], e) + if r.entityId == e then [r] else []
  }

  /** Nothing is lost, reordered or filed under another entity, and an entity is listed exactly when it has a record. */
  lemma {:induction false} HistoryKept(ops: seq<Op>, e: Text)
    ensures Of(Run(ops), e) == Arrived(ops, e)
    ensures e in Run(ops) <==> Arrived(ops, e) != []
  {
    hide RecordOf;
    if ops != [] {
      HistoryKept(ops[..|ops| - 1], e);
    }
  }

  /** The operations whose record is at or before t. */
  function UpTo(ops: seq<Op>, t: i64): seq<Op> {
    if ops == [] then []
    else
      var op := ops[|ops| - 1];
      UpTo(ops[..|ops| - 1], t) + if RecordOf(op).tSystem <= t then [op] else []
  }

  lemma RunSnoc(ops: seq<Op>, op: Op)
    ensures Run(ops + [op]) == Add(Run(ops), RecordOf(op))
  {
    assert (ops + [op])[..|ops|] == ops;
  }

  /** What was believed at t depends on nothing recorded after t. */
  lemma {:induction false} OnlyUpToMatters(ops: seq<Op>, t: i64, e: Text)
    ensures Belief(Run(ops), t, e) == Belief(Run(UpTo(ops, t)), t, e)
  {
    hide Belief, Add, RecordOf;
    if ops != [] {
      var k := |ops| - 1;
      var r := RecordOf(ops[k]);
      OnlyUpToMatters(ops[..k], t, e);
      AddEffect(Run(ops[..k]), r, t, e);
      if r.tSystem <= t {
        RunSnoc(UpTo(ops[..k], t), ops[k]);
        AddEffect(Run(UpTo(ops[..k], t)), r, t, e);
      } else {
        assert UpTo(ops, t) == UpTo(ops[..k], t);
      }
    }
  }

  /** Records after t, ingested or corrected, in any number, do not rewrite what was believed at t. */
  lemma {:induction false} BeliefsCannotBeRewritten(ops: seq<Op>, later: seq<Op>, t: i64)
    requires forall i :: 0 <= i < |later| ==> RecordOf(later[i]).tSystem > t
    ensures Beliefs(Run(ops + later), t) == Beliefs(Run(ops), t)
  {
    hide Belief, Add, RecordOf;
    if later == [] {
      assert ops + later == ops;
    } else {
      var k := |later| - 1;
      BeliefsCannotBeRewritten(ops, later[..k], t);
      assert ops + later == (ops + later[..k]) + [later[k]];
      RunSnoc(ops + later[..k], later[k]);
      LaterAdd(Run(ops + later[..k]), RecordOf(later[k]), t);
    }
  }

  lemma LaterAdd(s: Records, r: Record, t: i64)
    requires r.tSystem > t
    ensures Beliefs(Add(s, r), t) == Beliefs(s, t)
  {
    forall e ensures Belief(Add(s, r), t, e) == Belief(s, t, e) {
      AddEffect(s, r, t, e);
    }
    hide Belief;
    BeliefsIs(s, t);
    BeliefsIs(Add(s, r), t);
  }

  /** The belief map agrees with the beliefs: one for each entity that has a record at or before t, none for others. */
  lemma BeliefsIs(s: Records, t: i64)
    ensures forall e :: e in Beliefs(s, t) <==> Belief(s, t, e).Some?
    ensures forall e :: e in Beliefs(s, t) ==> Belief(s, t, e) == Some(Beliefs(s, t)[e])
  {
  }

  ghost predicate SameBeliefs(s: Records, u: Records) {
    forall t: i64, e :: Belief(s, t, e) == Belief(u, t, e)
  }

  /** The last record to arrive of an entity and a transaction time. */
  function LastAt(ops: seq<Op>, e: Text, t: i64): Option<Record> {
    if ops == [] then None
    else
      var r := RecordOf(ops[|ops| - 1]);
      if r.entityId == e && r.tSystem == t then Some(r) else LastAt(ops[..|ops| - 1], e, t)
  }

  lemma {:induction false} BeliefIsLast(ops: seq<Op>, t: i64, e: Text)
    ensures var b := Belief(Run(ops), t, e);
      b.Some? ==> b.value.tSystem <= t && LastAt(ops, e, b.value.tSystem) == b
  {
    hide Belief, Add, RecordOf;
    if ops == [] {
      NoBelief(t, e);
    } else {
      var k := |ops| - 1;
      BeliefIsLast(ops[..k], t, e);
      AddEffect(Run(ops[..k]), RecordOf(ops[k]), t, e);
    }
  }

  lemma NoBelief(t: i64, e: Text)
    ensures Belief(map[], t, e).None?
  {
  }

  lemma {:induction false} BeliefIsNewest(ops: seq<Op>, t: i64, e: Text, u: i64)
    requires u <= t && LastAt(ops, e, u).Some?
    ensures Belief(Run(ops), t, e).Some? && Belief(Run(ops), t, e).value.tSystem >= u
  {
    hide Belief, Add, RecordOf;
    var k := |ops| - 1;
    var r := RecordOf(ops[k]);
    AddEffect(Run(ops[..k]), r, t, e);
    if r.entityId != e || r.tSystem != u {
      BeliefIsNewest(ops[..k], t, e, u);
    }
  }

  /** The last record of an entity and a time is what is believed at that time, if that belief is of that time. */
  lemma LastFromBelief(ops: seq<Op>, e: Text, t: i64)
    ensures var b := Belief(Run(ops), t, e); LastAt(ops, e, t) == if b.Some? && b.value.tSystem == t then b else None
  {
    hide Belief, Run, LastAt;
    BeliefIsLast(ops, t, e);
    if LastAt(ops, e, t).Some? {
      BeliefIsNewest(ops, t, e, t);
    }
  }

  ghost predicate SameLast(a: seq<Op>, b: seq<Op>) {
    forall e, t: i64 :: LastAt(a, e, t) == LastAt(b, e, t)
  }

  lemma BeliefFromLast(a: seq<Op>, b: seq<Op>, t: i64, e: Text)
    requires SameLast(a, b)
    ensures Belief(Run(a), t, e).Some? ==> Belief(Run(b), t, e).Some?
    ensures Belief(Run(a), t, e).Some? ==> Belief(Run(b), t, e).value.tSystem >= Belief(Run(a), t, e).value.tSystem
  {
    hide Belief, Run, LastAt;
    BeliefIsLast(a, t, e);
    if Belief(Run(a), t, e).Some? {
      BeliefIsNewest(b, t, e, Belief(Run(a), t, e).value.tSystem);
    }
  }

  /** Two runs lead to the same beliefs at all times if and only if, for every entity and transaction time, the last
      record to arrive is the same: nothing else about the order of arrival matters. */
  lemma SameBeliefsIff(a: seq<Op>, b: seq<Op>)
    ensures SameBeliefs(Run(a), Run(b)) <==> SameLast(a, b)
  {
    hide Belief, Run, LastAt;
    if SameBeliefs(Run(a), Run(b)) {
      forall e, t: i64 ensures LastAt(a, e, t) == LastAt(b, e, t) {
        LastFromBelief(a, e, t);
        LastFromBelief(b, e, t);
      }
    }
    if SameLast(a, b) {
      forall t: i64, e ensures Belief(Run(a), t, e) == Belief(Run(b), t, e) {
        BeliefFromLast(a, b, t, e);
        BeliefFromLast(b, a, t, e);
        BeliefIsLast(a, t, e);
        BeliefIsLast(b, t, e);
      }
    }
  }

  lemma {:induction false} LastConcat(a: seq<Op>, b: seq<Op>, e: Text, t: i64)
    ensures LastAt(a + b, e, t) == if LastAt(b, e, t).Some? then LastAt(b, e, t) else LastAt(a, e, t)
  {
    hide RecordOf;
    if b == [] {
      assert a + b == a;
    } else {
      LastConcat(a, b[..|b| - 1], e, t);
      assert (a + b)[..|a + b| - 1] == a + b[..|b| - 1];
    }
  }

  lemma LastOne(x: Op, e: Text, t: i64)
    ensures var r := RecordOf(x); LastAt([x], e, t) == if r.entityId == e && r.tSystem == t then Some(r) else None
  {
    hide RecordOf;
    assert [x][..0] == [];
  }

  /** In particular, exchanging two neighbours that do not share entity and transaction time, anywhere in a run, changes
      no belief at any time. */
  lemma ArrivalOrderIrrelevant(ops: seq<Op>, x: Op, y: Op, rest: seq<Op>)
    requires RecordOf(x).entityId != RecordOf(y).entityId || RecordOf(x).tSystem != RecordOf(y).tSystem
    ensures SameBeliefs(Run(ops + [x] + [y] + rest), Run(ops + [y] + [x] + rest))
  {
    hide SameBeliefs, Run, RecordOf, LastAt;
    var a, b := ops + [x] + [y], ops + [y] + [x];
    forall e, t: i64 ensures LastAt(a + rest, e, t) == LastAt(b + rest, e, t) {
      LastOne(x, e, t);
      LastOne(y, e, t);
      LastConcat(ops, [x], e, t);
      LastConcat(ops, [y], e, t);
      LastConcat(ops + [x], [y], e, t);
      LastConcat(ops + [y], [x], e, t);
      LastConcat(a, rest, e, t);
      LastConcat(b, rest, e, t);
    }
    SameBeliefsIff(a + rest, b + rest);
  }

  /** A correction with the transaction time of the span it corrects replaces it in every belief that held it. */
  lemma CorrectionReplaces(s: Records, op: Op, newTEvent: i64, t: i64)
    requires Belief(s, t, EntityId(op.span)) == Some(RecordOf(op))
    ensures Belief(Add(s, RecordOf(Correct(op.span, newTEvent))), t, EntityId(op.span)) ==
            Some(Record(EntityId(op.span), newTEvent, RecordOf(op).tSystem, op.span))
  {
    hide Belief, Add, ReadTime;
    LatestIs(Of(s, EntityId(op.span)), t);
    AddEffect(s, RecordOf(Correct(op.span, newTEvent)), t, EntityId(op.span));
    BeliefBy(s, t, EntityId(op.span));
  }

  lemma BeliefBy(s: Records, t: i64, e: Text)
    ensures Belief(s, t, e).Some? ==> Belief(s, t, e).value.tSystem <= t
  {
    LatestIs(Of(s, e), t);
  }

  // ---- From the wire to the record ----

  /** A span that fits its one-byte lengths, sent, decoded, converted and ingested, leaves a record with its exact
      times under its own entity. */
  lemma WireToRecord(s: CompactSpan.Span, suffix: seq<byte>)
    requires CompactSpan.WellTyped(s) && CompactSpan.Fits(s)
    ensures var d := CompactSpan.Decoded(CompactSpan.Wire(s) + suffix);
      d.Ok? && var r := RecordOf(Ingest(Converted(d.value)));
               && r.tEvent == s.tEvent && r.tSystem == s.tSystem && r.entityId == EntityId(Converted(s))
               && r.span == Converted(s)
  {
    hide CompactSpan.Decoded, CompactSpan.Wire, ReadTime, Converted;
    CompactSpan.DecodeEncode(s, suffix);
    TimesSurvive(s);
  }

  // ---- The reconciler in place ----

  /** results holds the span of each entity's belief, in the order of entities, which has every believed entity once. */
  ghost predicate ListsBy(beliefs: map<Text, Record>, entities: seq<Text>, results: seq<OtlpSpan>) {
    && |results| == |entities|
    && (forall i, j :: 0 <= i < j < |entities| ==> entities[i] != entities[j])
    && (forall e :: e in entities <==> e in beliefs)
    && (forall i :: 0 <= i < |results| ==> results[i] == beliefs[entities[i]].span)
  }

  ghost predicate Lists(beliefs: map<Text, Record>, results: seq<OtlpSpan>) {
    exists entities :: ListsBy(beliefs, entities, results)
  }

  class BitemporalReconciler {
    var records: Records

    constructor ()
      ensures records == map[]
    {
      records := map[];
    }

    method Push(r: Record)
      modifies this
      ensures records == Add(old(records), r)
    {
      if r.entityId !in records {
        records := records[r.entityId := []];
      }
      records := records[r.entityId := records[r.entityId] + [r]];
    }

    method IngestSpan(span: OtlpSpan)
      modifies this
      ensures records == Add(old(records), RecordOf(Ingest(span)))
    {
      var tEvent := ReadTime(span.attributes, T_EVENT);
      var tSystem := ReadTime(span.attributes, T_SYSTEM);
      Push(Record(EntityId(span), tEvent, tSystem, span));
    }

    method RetroactiveCorrection(span: OtlpSpan, newTEvent: i64)
      modifies this
      ensures records == Add(old(records), RecordOf(Correct(span, newTEvent)))
    {
      var tSystem := ReadTime(span.attributes, T_SYSTEM);
      Push(Record(EntityId(span), newTEvent, tSystem, span));
    }

    /** Lists the beliefs at t, each entity once, in any order of the entities. */
    method SystemBeliefAt(t: i64) returns (results: seq<OtlpSpan>)
      ensures Lists(Beliefs(records, t), results)
    {
      ghost var entities: seq<Text> := [];
      results := [];
      var pending := records.Keys;
      while pending != {}
        invariant pending <= records.Keys && |results| == |entities|
        invariant forall i :: 0 <= i < |entities| ==> entities[i] !in pending
        invariant forall i, j :: 0 <= i < j < |entities| ==> entities[i] != entities[j]
        invariant forall e :: e in entities <==> e in Beliefs(records, t) && e !in pending
        invariant forall i :: 0 <= i < |results| ==> results[i] == Beliefs(records, t)[entities[i]].span
        decreases |pending|
      {
        var e :| e in pending;
        pending := pending - {e};
        var latest := FindLatest(records[e], t);
        if latest.Some? {
          results := results + [latest.value.span];
          entities := entities + [e];
        }
      }
      assert ListsBy(Beliefs(records, t), entities, results);
    }

    method Clear()
      modifies this
      ensures records == map[]
    {
      records := map[];
    }
  }

  /** `filter` and `max_by_key`, which keeps the last of equal maxima. */
  method FindLatest(rs: seq<Record>, t: i64) returns (best: Option<Record>)
    ensures best == Latest(rs, t)
  {
    best := None;
    for i := 0 to |rs|
      invariant best == Latest(rs[..i], t)
    {
      if rs[i].tSystem <= t {
        if best.None? || rs[i].tSystem >= best.value.tSystem {
          best := Some(rs[i]);
        }
      }
      assert rs[..i + 1][..i] == rs[..i];
    }
    assert rs[..|rs|] == rs;
  }
}
