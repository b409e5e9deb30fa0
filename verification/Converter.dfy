/** Compact spans as OTLP spans (src/otel_converter.rs) and the times read back from their attributes
    (src/otel_reconciler.rs). Text is a sequence of bytes. */
module Converter {
  import opened Bytes
  import opened CompactSpan
  import Decimal
  import Hex
  import Utf8

  type Attributes = seq<(Text, Text)>

  datatype OtlpStatus = Unset | Okay | Error

  datatype OtlpSpan = OtlpSpan(
    traceId: Text, spanId: Text, parentSpanId: Option<Text>, name: Text, start: u64, end: u64,
    attributes: Attributes, status: OtlpStatus)

  function Ascii(s: string): Text
    requires forall i :: 0 <= i < |s| ==> s[i] < 128 as char
  {
    seq(|s|, i requires 0 <= i < |s| => s[i] as int)
  }

  const T_EVENT: Text := Ascii("t_event")
  const T_SYSTEM: Text := Ascii("t_system")
  const SENSOR_ID: Text := Ascii("sensor_id")
  const SPREAD_MS: Text := Ascii("spread_ms")

  /** The spread in 64-bit wrapping arithmetic. */
  function Spread(s: Span): i64 {
    Signed((s.tSystem - s.tEvent) % TWO64)
  }

  function Times(s: Span): Attributes {
    [(T_EVENT, Decimal.Print(s.tEvent)), (T_SYSTEM, Decimal.Print(s.tSystem)), (SENSOR_ID, s.sensorId),
     (SPREAD_MS, Decimal.Print(Spread(s)))]
  }

  function Converted(s: Span): OtlpSpan {
    OtlpSpan(
      Hex.Encode(s.traceId), Hex.Encode(s.spanId),
      if s.parentSpanId != [0, 0, 0, 0, 0, 0, 0, 0] then Some(Hex.Encode(s.parentSpanId)) else None,
      s.name, s.start, s.end, Times(s) + s.attributes, if s.status == StatusOk then Okay else Error)
  }

  method FromCompact(s: Span) returns (r: OtlpSpan)
    ensures r == Converted(s)
  {
    var attributes: Attributes := [];
    attributes := attributes + [(T_EVENT, Decimal.Print(s.tEvent))];
    attributes := attributes + [(T_SYSTEM, Decimal.Print(s.tSystem))];
    attributes := attributes + [(SENSOR_ID, s.sensorId)];
    attributes := attributes + [(SPREAD_MS, Decimal.Print(Spread(s)))];
    for i := 0 to |s.attributes|
      invariant attributes == Times(s) + s.attributes[..i]
    {
      attributes := attributes + [(s.attributes[i].0, s.attributes[i].1)];
    }
    assert s.attributes[..|s.attributes|] == s.attributes;
    r := OtlpSpan(
      Hex.Encode(s.traceId), Hex.Encode(s.spanId),
      if s.parentSpanId != [0, 0, 0, 0, 0, 0, 0, 0] then Some(Hex.Encode(s.parentSpanId)) else None,
      s.name, s.start, s.end, attributes, if s.status == StatusOk then Okay else Error);
  }

  // ---- Reading times back ----

  /** The value of the first attribute with the key. */
  function Find(a: Attributes, key: Text): Option<Text> {
    if a == [] then None else if a[0].0 == key then Some(a[0].1) else Find(a[1..], key)
  }

  /** The first attribute with the key, read as an integer; 0 if it is absent or does not parse. */
  function ReadTime(a: Attributes, key: Text): i64 {
    match Find(a, key)
    case None => 0
    case Some(v) =>
      match Decimal.Parse(v)
      case None => 0
      case Some(x) => x
  }

  lemma {:induction false} FindPrefix(a: Attributes, b: Attributes, key: Text)
    ensures Find(a + b, key) == if Find(a, key).Some? then Find(a, key) else Find(b, key)
  {
    if a == [] {
      assert a + b == b;
    } else {
      FindPrefix(a[1..], b, key);
      assert (a + b)[1..] == a[1..] + b;
    }
  }

  /** The first attribute with the key decides, if it is an integer; otherwise the time is zero. */
  lemma {:induction false} ReadTimeIs(a: Attributes, key: Text, i: nat)
    requires i <= |a| && (forall j :: 0 <= j < i ==> a[j].0 != key) && (i < |a| ==> a[i].0 == key)
    ensures ReadTime(a, key) ==
      if i < |a| && Decimal.Parse(a[i].1).Some? then Decimal.Parse(a[i].1).value else 0
  {
    hide Decimal.Parse;
    if i > 0 {
      ReadTimeIs(a[1..], key, i - 1);
    }
  }

  lemma TimesFound(s: Span)
    ensures Find(Times(s), T_EVENT) == Some(Decimal.Print(s.tEvent))
    ensures Find(Times(s), T_SYSTEM) == Some(Decimal.Print(s.tSystem))
    ensures Find(Times(s), SENSOR_ID) == Some(s.sensorId)
    ensures Find(Times(s), SPREAD_MS) == Some(Decimal.Print(Spread(s)))
  {
    hide Decimal.Print, Spread;
    var a := Times(s);
    assert |T_EVENT| == 7 && |T_SYSTEM| == 8 && |SENSOR_ID| == 9 && |SPREAD_MS| == 9;
    assert SENSOR_ID[1] == 101 && SPREAD_MS[1] == 112;
    assert a[1..][0] == a[1] && a[1..][1..][0] == a[2] && a[1..][1..][1..][0] == a[3];
    assert Find(a[1..], T_SYSTEM) == Some(a[1].1);
    assert Find(a[1..][1..], SENSOR_ID) == Some(a[2].1);
    assert Find(a[1..], SENSOR_ID) == Some(a[2].1);
    assert Find(a[1..][1..][1..], SPREAD_MS) == Some(a[3].1);
    assert Find(a[1..][1..], SPREAD_MS) == Some(a[3].1);
    assert Find(a[1..], SPREAD_MS) == Some(a[3].1);
  }

  /** The converted span carries the exact times of the compact span, whatever its own attributes are called. */
  lemma TimesSurvive(s: Span)
    ensures ReadTime(Converted(s).attributes, T_EVENT) == s.tEvent
    ensures ReadTime(Converted(s).attributes, T_SYSTEM) == s.tSystem
    ensures ReadTime(Converted(s).attributes, SPREAD_MS) == Spread(s)
  {
    hide Decimal.Print, Decimal.Parse, Find, Times, Spread;
    TimesFound(s);
    FindPrefix(Times(s), s.attributes, T_EVENT);
    FindPrefix(Times(s), s.attributes, T_SYSTEM);
    FindPrefix(Times(s), s.attributes, SPREAD_MS);
    Decimal.ParsePrint(s.tEvent);
    Decimal.ParsePrint(s.tSystem);
    Decimal.ParsePrint(Spread(s));
  }

  /** What a converted span carries: the ids as hexadecimal text, no parent exactly for the zero id, name, times and
      status, and behind the four attributes of its own those of the compact span. */
  lemma FieldsKept(s: Span)
    ensures var r := Converted(s);
      && Hex.Decode(r.traceId) == Some(s.traceId) && Hex.Decode(r.spanId) == Some(s.spanId)
      && (r.parentSpanId.None? <==> s.parentSpanId == [0, 0, 0, 0, 0, 0, 0, 0])
      && (r.parentSpanId.Some? ==> Hex.Decode(r.parentSpanId.value) == Some(s.parentSpanId))
      && r.name == s.name && r.start == s.start && r.end == s.end
      && r.status == (if s.status.StatusOk? then Okay else Error)
      && |r.attributes| == 4 + |s.attributes| && r.attributes[4..] == s.attributes
    ensures Find(Converted(s).attributes, SENSOR_ID) == Some(s.sensorId)
    ensures -TWO63 <= s.tSystem - s.tEvent < TWO63 ==>
      ReadTime(Converted(s).attributes, SPREAD_MS) == s.tSystem - s.tEvent
  {
    hide Hex.Decode, Hex.Encode, Decimal.Print, ReadTime;
    Hex.DecodeEncode(s.traceId);
    Hex.DecodeEncode(s.spanId);
    Hex.DecodeEncode(s.parentSpanId);
    Split(Times(s), s.attributes);
    TimesFound(s);
    FindPrefix(Times(s), s.attributes, SENSOR_ID);
    TimesSurvive(s);
  }

  // ---- The entity of a span ----

  const COLON: byte := 0x3A

  function EntityId(s: OtlpSpan): Text {
    s.traceId + [COLON] + s.spanId
  }

  /** The entity is the two ids as text with a colon between them, and two compact spans belong to one entity exactly
      when their trace and span ids agree. */
  lemma SameEntityIff(s: Span, t: Span)
    requires WellTyped(s) && WellTyped(t)
    ensures EntityId(Converted(s)) == Hex.Encode(s.traceId) + [':' as int] + Hex.Encode(s.spanId)
    ensures EntityId(Converted(s)) == EntityId(Converted(t)) <==> s.traceId == t.traceId && s.spanId == t.spanId
  {
    hide Hex.Encode, Hex.Decode, WellTyped;
    var a, b := EntityId(Converted(s)), EntityId(Converted(t));
    Sizes(s);
    Sizes(t);
    assert a[..32] == Hex.Encode(s.traceId) && a[33..] == Hex.Encode(s.spanId);
    assert b[..32] == Hex.Encode(t.traceId) && b[33..] == Hex.Encode(t.spanId);
    Hex.DecodeEncode(s.traceId);
    Hex.DecodeEncode(t.traceId);
    Hex.DecodeEncode(s.spanId);
    Hex.DecodeEncode(t.spanId);
  }

  lemma Sizes(s: Span)
    requires WellTyped(s)
    ensures |s.traceId| == 16 && |s.spanId| == 8
  {
    hide Utf8.Scan, AllText;
  }
}
