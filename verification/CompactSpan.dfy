/** The compact span codec (src/otel_compact_span.rs). Text is a sequence of bytes that must be UTF-8. */
module CompactSpan {
  import opened Bytes
  import Utf8

  type Text = seq<byte>

  datatype Status = StatusOk | StatusError

  datatype Span = Span(
    traceId: seq<byte>, spanId: seq<byte>, parentSpanId: seq<byte>, name: Text,
    start: u64, end: u64, tEvent: i64, tSystem: i64,
    sensorId: Text, attributes: seq<(Text, Text)>, status: Status)

  ghost predicate AllText(a: seq<(Text, Text)>) {
    forall i :: 0 <= i < |a| ==> Utf8.Scan(a[i].0).Valid? && Utf8.Scan(a[i].1).Valid?
  }

  ghost predicate AllShort(a: seq<(Text, Text)>) {
    forall i :: 0 <= i < |a| ==> |a[i].0| <= 255 && |a[i].1| <= 255
  }

  /** What the types of the source guarantee: fixed-size ids, and strings that are UTF-8. */
  ghost predicate WellTyped(s: Span) {
    && |s.traceId| == 16 && |s.spanId| == 8 && |s.parentSpanId| == 8
    && Utf8.Scan(s.name).Valid? && Utf8.Scan(s.sensorId).Valid?
    && AllText(s.attributes)
  }

  /** Every one-byte length and count is large enough. */
  ghost predicate Fits(s: Span) {
    && |s.name| <= 255 && |s.sensorId| <= 255 && |s.attributes| <= 255
    && AllShort(s.attributes)
  }

  datatype DecodeError = ShortSpan | ShortText | BadText | ShortAttribute | BadStatus

  /** A decoder returns a value, returns an error, or reads past the end of its buffer, which panics. */
  datatype Outcome<+T> = Ok(value: T) | Err(error: DecodeError) | Panics

  // ---- Encoding ----

  /** A length byte (cut to eight bits) and the text. */
  function PutText(t: Text): seq<byte> {
    [AsByte(|t|)] + t
  }

  function PutAttributes(a: seq<(Text, Text)>): seq<byte> {
    if a == [] then [] else PutText(a[0].0) + PutText(a[0].1) + PutAttributes(a[1..])
  }

  function PutStatus(s: Status): byte {
    if s.StatusOk? then 0 else 1
  }

  function PutTimes(s: Span): (b: seq<byte>)
    ensures |b| == 32
  {
    ToBe(8, s.start) + ToBe(8, s.end) + ToBe(8, Unsigned(s.tEvent)) + ToBe(8, Unsigned(s.tSystem))
  }

  /** Sensor, attributes and status. */
  function PutTail(s: Span): seq<byte> {
    PutText(s.sensorId) + [AsByte(|s.attributes|)] + PutAttributes(s.attributes) + [PutStatus(s.status)]
  }

  /** The encoding of a span. */
  function Wire(s: Span): seq<byte> {
    s.traceId + s.spanId + s.parentSpanId + PutText(s.name) + PutTimes(s) + PutTail(s)
  }

  method Encode(s: Span) returns (buf: seq<byte>)
    ensures buf == Wire(s)
  {
    hide ToBe, PutText, PutAttributes, AsByte, PutStatus;
    buf := s.traceId + s.spanId + s.parentSpanId + PutText(s.name);
    buf := buf + ToBe(8, s.start) + ToBe(8, s.end) + ToBe(8, Unsigned(s.tEvent)) + ToBe(8, Unsigned(s.tSystem));
    buf := buf + PutText(s.sensorId) + [AsByte(|s.attributes|)];
    ghost var head := buf;
    HeadIs(s, head);
    assert s.attributes[0..] == s.attributes;
    for i := 0 to |s.attributes|
      invariant buf + PutAttributes(s.attributes[i..]) == head + PutAttributes(s.attributes)
    {
      var (key, value) := s.attributes[i];
      AttributesStep(buf, s.attributes, i);
      buf := buf + PutText(key) + PutText(value);
    }
    AttributesEmpty(buf);
    assert s.attributes[|s.attributes|..] == [];
    buf := buf + [PutStatus(s.status)];
  }

  /** Everything before the attributes. */
  function Head(s: Span): seq<byte> {
    s.traceId + s.spanId + s.parentSpanId + PutText(s.name) + PutTimes(s) + PutText(s.sensorId) +
      [AsByte(|s.attributes|)]
  }

  lemma HeadIs(s: Span, head: seq<byte>)
    requires head == s.traceId + s.spanId + s.parentSpanId + PutText(s.name) + ToBe(8, s.start) + ToBe(8, s.end)
      + ToBe(8, Unsigned(s.tEvent)) + ToBe(8, Unsigned(s.tSystem)) + PutText(s.sensorId) + [AsByte(|s.attributes|)]
    ensures head == Head(s)
    ensures Wire(s) == head + PutAttributes(s.attributes) + [PutStatus(s.status)]
  {
    hide ToBe, PutText, PutAttributes, AsByte, PutStatus;
    var ids := s.traceId + s.spanId + s.parentSpanId + PutText(s.name);
    Regroup(ids, ToBe(8, s.start), ToBe(8, s.end), ToBe(8, Unsigned(s.tEvent)), ToBe(8, Unsigned(s.tSystem)));
    Regroup([], ToBe(8, s.start), ToBe(8, s.end), ToBe(8, Unsigned(s.tEvent)), ToBe(8, Unsigned(s.tSystem)));
    assert [] + ToBe(8, s.start) == ToBe(8, s.start);
    assert ids + PutTimes(s) == ids + ToBe(8, s.start) + ToBe(8, s.end) + ToBe(8, Unsigned(s.tEvent)) +
      ToBe(8, Unsigned(s.tSystem));
    Regroup(ids + PutTimes(s), PutText(s.sensorId), [AsByte(|s.attributes|)], PutAttributes(s.attributes),
      [PutStatus(s.status)]);
    Regroup([], PutText(s.sensorId), [AsByte(|s.attributes|)], PutAttributes(s.attributes), [PutStatus(s.status)]);
    assert [] + PutText(s.sensorId) == PutText(s.sensorId);
  }

  lemma AttributesStep(buf: seq<byte>, a: seq<(Text, Text)>, i: nat)
    requires i < |a|
    ensures buf + PutAttributes(a[i..]) == buf + PutText(a[i].0) + PutText(a[i].1) + PutAttributes(a[i + 1..])
  {
    hide PutText;
    assert a[i..][1..] == a[i + 1..];
  }

  lemma AttributesEmpty(buf: seq<byte>)
    ensures buf + PutAttributes([]) == buf
  {
  }

  function EncodedSize(s: Span): nat {
    16 + 8 + 8 + 1 + |s.name| + 8 + 8 + 8 + 8 + 1 + |s.sensorId| + 1 + AttributesSize(s.attributes) + 1
  }

  function AttributesSize(a: seq<(Text, Text)>): nat {
    if a == [] then 0 else 1 + |a[0].0| + 1 + |a[0].1| + AttributesSize(a[1..])
  }

  lemma {:induction false} AttributesSizeExact(a: seq<(Text, Text)>)
    ensures |PutAttributes(a)| == AttributesSize(a)
  {
    if a != [] {
      AttributesSizeExact(a[1..]);
    }
  }

  /** The size estimate is exact, even when a length byte overflows. */
  lemma EncodedSizeExact(s: Span)
    requires WellTyped(s)
    ensures |Wire(s)| == EncodedSize(s)
  {
    AttributesSizeExact(s.attributes);
  }

  lemma LayoutOf(ids: seq<byte>, name: Text, times: seq<byte>, sensor: Text, end: seq<byte>)
    requires |ids| == 32 && |times| == 32
    ensures var w := ids + PutText(name) + times + (PutText(sensor) + end);
      var n := 33 + |name|; var m := n + 33 + |sensor|;
      && |w| == m + |end| && w[..32] == ids && w[32] == |name| % 256 && w[33..n] == name && w[n..n + 32] == times
      && w[n + 32] == |sensor| % 256 && w[n + 33..m] == sensor && w[m..] == end
  {
  }

  lemma FourTimes(a: seq<byte>, b: seq<byte>, c: seq<byte>, d: seq<byte>)
    requires |a| == |b| == |c| == |d| == 8
    ensures var t := a + b + c + d; t[..8] == a && t[8..16] == b && t[16..24] == c && t[24..32] == d
  {
  }

  lemma SubSlice(w: seq<byte>, n: nat, k: nat)
    requires n + 32 <= |w| && k + 8 <= 32
    ensures w[n + k..n + k + 8] == w[n..n + 32][k..k + 8]
  {
    var t := w[n..n + 32];
    var u, v := w[n + k..n + k + 8], t[k..k + 8];
    forall i | 0 <= i < |u| ensures u[i] == v[i] {
      assert t[k + i] == w[n + k + i];
    }
  }

  lemma PairLayout(key: Text, value: Text)
    ensures PutText(key) + PutText(value) == [|key| % 256] + key + [|value| % 256] + value
  {
  }

  lemma {:induction false} AttributesSplit(a: seq<(Text, Text)>, x: (Text, Text), b: seq<(Text, Text)>)
    ensures PutAttributes(a + [x] + b) == PutAttributes(a) + (PutText(x.0) + PutText(x.1)) + PutAttributes(b)
  {
    hide PutText;
    var all := a + [x] + b;
    if a == [] {
      assert all[0] == x && all[1..] == b;
    } else {
      AttributesSplit(a[1..], x, b);
      assert all[0] == a[0] && all[1..] == a[1..] + [x] + b;
    }
  }

  /** Attributes are written one after the other, each as key and value, each of these behind its length. */
  lemma AttributesLayout(a: seq<(Text, Text)>, key: Text, value: Text, b: seq<(Text, Text)>)
    ensures PutAttributes(a + [(key, value)] + b) ==
      PutAttributes(a) + ([|key| % 256] + key + [|value| % 256] + value) + PutAttributes(b)
  {
    hide PutText, PutAttributes;
    AttributesSplit(a, (key, value), b);
    PairLayout(key, value);
  }

  lemma TimesLayout(w: seq<byte>, n: nat, s: Span)
    requires n + 32 <= |w| && w[n..n + 32] == PutTimes(s)
    ensures FromBe(w[n..n + 8]) == s.start && FromBe(w[n + 8..n + 16]) == s.end
    ensures FromBe(w[n + 16..n + 24]) == if s.tEvent < 0 then s.tEvent + TWO64 else s.tEvent
    ensures FromBe(w[n + 24..n + 32]) == if s.tSystem < 0 then s.tSystem + TWO64 else s.tSystem
  {
    hide ToBe, FromBe;
    RadixOfEight();
    FromToBe(8, s.start);
    FromToBe(8, s.end);
    FromToBe(8, Unsigned(s.tEvent));
    FromToBe(8, Unsigned(s.tSystem));
    FourTimes(ToBe(8, s.start), ToBe(8, s.end), ToBe(8, Unsigned(s.tEvent)), ToBe(8, Unsigned(s.tSystem)));
    SubSlice(w, n, 0);
    SubSlice(w, n, 8);
    SubSlice(w, n, 16);
    SubSlice(w, n, 24);
  }

  lemma IdsLayout(w: seq<byte>, a: seq<byte>, b: seq<byte>, c: seq<byte>)
    requires |a| == 16 && |b| == 8 && |c| == 8 && |w| >= 32 && w[..32] == a + b + c
    ensures w[..16] == a && w[16..24] == b && w[24..32] == c
  {
    var ids := a + b + c;
    assert w[..16] == ids[..16] && w[16..24] == ids[16..24] && w[24..32] == ids[24..32];
  }

  lemma AfterSensor(s: Span)
    ensures PutTail(s) ==
      PutText(s.sensorId) + ([AsByte(|s.attributes|)] + PutAttributes(s.attributes) + [PutStatus(s.status)])
  {
    hide PutText, PutAttributes, AsByte, PutStatus;
    var n, a, x := [AsByte(|s.attributes|)], PutAttributes(s.attributes), [PutStatus(s.status)];
    assert PutText(s.sensorId) + n + a + x == PutText(s.sensorId) + (n + a + x);
  }

  lemma EndLayout(w: seq<byte>, m: nat, s: Span, end: seq<byte>)
    requires m <= |w| && w[m..] == end
    requires end == [AsByte(|s.attributes|)] + PutAttributes(s.attributes) + [PutStatus(s.status)]
    ensures |w| >= m + 2 && w[m] == |s.attributes| % 256
    ensures w[m + 1..|w| - 1] == PutAttributes(s.attributes) && w[|w| - 1] == (if s.status.StatusOk? then 0 else 1)
  {
    hide PutAttributes;
    assert w[m] == end[0] && w[|w| - 1] == end[|end| - 1];
    assert w[m + 1..|w| - 1] == end[1..|end| - 1];
  }

  /** Where each field of an encoding is: ids, a length byte and the name, four big-endian times, a length byte and the
      sensor, the number of attributes, and the status in the last byte. */
  lemma Layout(s: Span)
    requires WellTyped(s)
    ensures var w := Wire(s); var n := 33 + |s.name|; var m := n + 33 + |s.sensorId|;
      && |w| >= m + 2 && w[..16] == s.traceId && w[16..24] == s.spanId && w[24..32] == s.parentSpanId
      && w[32] == |s.name| % 256 && w[33..n] == s.name
      && FromBe(w[n..n + 8]) == s.start && FromBe(w[n + 8..n + 16]) == s.end
      && FromBe(w[n + 16..n + 24]) == (if s.tEvent < 0 then s.tEvent + TWO64 else s.tEvent)
      && FromBe(w[n + 24..n + 32]) == (if s.tSystem < 0 then s.tSystem + TWO64 else s.tSystem)
      && w[n + 32] == |s.sensorId| % 256 && w[n + 33..m] == s.sensorId
      && w[m] == |s.attributes| % 256
      && w[m + 1..|w| - 1] == PutAttributes(s.attributes)
      && w[|w| - 1] == (if s.status.StatusOk? then 0 else 1)
  {
    hide Utf8.Scan, AllText, FromBe, PutAttributes, PutTimes, PutText, AsByte, PutStatus;
    var ids := s.traceId + s.spanId + s.parentSpanId;
    var end := [AsByte(|s.attributes|)] + PutAttributes(s.attributes) + [PutStatus(s.status)];
    var w, n := Wire(s), 33 + |s.name|;
    LayoutOf(ids, s.name, PutTimes(s), s.sensorId, end);
    AfterSensor(s);
    hide PutTail;
    TimesLayout(w, n, s);
    EndLayout(w, n + 33 + |s.sensorId|, s, end);
    IdsLayout(w, s.traceId, s.spanId, s.parentSpanId);
  }

  // ---- Decoding ----

  /** A length byte and that many bytes of UTF-8. */
  function GetText(buf: seq<byte>): Outcome<(Text, seq<byte>)>
    requires buf != []
  {
    var n: nat := buf[0];
    if |buf| < 1 + n then Err(ShortText)
    else if !Utf8.Scan(buf[1..1 + n]).Valid? then Err(BadText)
    else Ok((buf[1..1 + n], buf[1 + n..]))
  }

  function GetAttribute(buf: seq<byte>): Outcome<((Text, Text), seq<byte>)> {
    if buf == [] then Err(ShortAttribute)
    else
      match GetText(buf)
      case Err(e) => Err(e)
      case Panics => Panics
      case Ok((key, rest)) =>
        if rest == [] then Err(ShortAttribute)
        else
          match GetText(rest)
          case Err(e) => Err(e)
          case Panics => Panics
          case Ok((value, rest')) => Ok(((key, value), rest'))
  }

  function GetAttributes(n: nat, buf: seq<byte>): Outcome<(seq<(Text, Text)>, seq<byte>)> {
    if n == 0 then Ok(([], buf))
    else
      match GetAttribute(buf)
      case Err(e) => Err(e)
      case Panics => Panics
      case Ok((a, rest)) =>
        match GetAttributes(n - 1, rest)
        case Err(e) => Err(e)
        case Panics => Panics
        case Ok((more, rest')) => Ok(([a] + more, rest'))
  }

  function GetStatus(b: byte): Outcome<Status> {
    match b
    case 0 => Ok(StatusOk)
    case 1 => Ok(StatusError)
    case _ => Err(BadStatus)
  }

  /** Sensor, attributes and status; the count and the status byte are read without a length check. */
  function GetTail(buf: seq<byte>): Outcome<(Text, seq<(Text, Text)>, Status)>
    requires buf != []
  {
    match GetText(buf)
    case Err(e) => Err(e)
    case Panics => Panics
    case Ok((sensor, rest)) =>
      if rest == [] then Panics
      else
        match GetAttributes(rest[0], rest[1..])
        case Err(e) => Err(e)
        case Panics => Panics
        case Ok((attributes, rest')) =>
          if rest' == [] then Panics
          else
            match GetStatus(rest'[0])
            case Err(e) => Err(e)
            case Panics => Panics
            case Ok(status) => Ok((sensor, attributes, status))
  }

  function GetU64(buf: seq<byte>): u64
    requires |buf| == 8
  {
    RadixOfEight();
    FromBe(buf)
  }

  /** What decoding yields. Up to 68 bytes are checked for at the start; the four timestamps and the sensor length
      after the name are not checked again. */
  function Decoded(data: seq<byte>): Outcome<Span> {
    if |data| < 68 then Err(ShortSpan)
    else
      match GetText(data[32..])
      case Err(e) => Err(e)
      case Panics => Panics
      case Ok((name, rest)) =>
        if |rest| < 33 then Panics
        else
          match GetTail(rest[32..])
          case Err(e) => Err(e)
          case Panics => Panics
          case Ok((sensor, attributes, status)) =>
            Ok(Span(data[..16], data[16..24], data[24..32], name,
                    GetU64(rest[..8]), GetU64(rest[8..16]), Signed(GetU64(rest[16..24])), Signed(GetU64(rest[24..32])),
                    sensor, attributes, status))
  }

  /** The attribute loop of the decoder. */
  method ReadAttributes(count: nat, buf: seq<byte>) returns (r: Outcome<(seq<(Text, Text)>, seq<byte>)>)
    ensures r == GetAttributes(count, buf)
  {
    var attributes: seq<(Text, Text)> := [];
    var cursor := buf;
    ghost var all := GetAttributes(count, buf);
    assert all.Ok? ==> [] + all.value.0 == all.value.0;
    for i := 0 to count
      invariant Follows(all, attributes, GetAttributes(count - i, cursor))
    {
      var a := GetAttribute(cursor);
      if !a.Ok? {
        return if a.Err? then Err(a.error) else Panics;
      }
      FollowsStep(all, attributes, count - i, cursor);
      attributes := attributes + [a.value.0];
      cursor := a.value.1;
    }
    assert attributes + [] == attributes;
    r := Ok((attributes, cursor));
  }

  /** The decoder: a cursor over the data. */
  method Decode(data: seq<byte>) returns (r: Outcome<Span>)
    ensures r == Decoded(data)
  {
    if |data| < 68 {
      return Err(ShortSpan);
    }
    var name := GetText(data[32..]);
    if !name.Ok? {
      return if name.Err? then Err(name.error) else Panics;
    }
    var cursor := name.value.1;
    if |cursor| < 33 {
      return Panics;
    }
    var times := cursor;
    var sensor := GetText(cursor[32..]);
    if !sensor.Ok? {
      return if sensor.Err? then Err(sensor.error) else Panics;
    }
    cursor := sensor.value.1;
    if cursor == [] {
      return Panics;
    }
    var attributes := ReadAttributes(cursor[0], cursor[1..]);
    if !attributes.Ok? {
      return if attributes.Err? then Err(attributes.error) else Panics;
    }
    cursor := attributes.value.1;
    if cursor == [] {
      return Panics;
    }
    var status := GetStatus(cursor[0]);
    if !status.Ok? {
      return if status.Err? then Err(status.error) else Panics;
    }
    r := Ok(Span(data[..16], data[16..24], data[24..32], name.value.0,
                 GetU64(times[..8]), GetU64(times[8..16]), Signed(GetU64(times[16..24])), Signed(GetU64(times[24..32])),
                 sensor.value.0, attributes.value.0, status.value));
  }

  /** all is what remains to be read, with what was already read in front of it. */
  ghost predicate Follows(all: Outcome<(seq<(Text, Text)>, seq<byte>)>, done: seq<(Text, Text)>,
      rest: Outcome<(seq<(Text, Text)>, seq<byte>)>) {
    match rest
    case Ok((more, buf)) => all == Ok((done + more, buf))
    case Err(e) => all == Err(e)
    case Panics => all == Panics
  }

  lemma FollowsStep(all: Outcome<(seq<(Text, Text)>, seq<byte>)>, done: seq<(Text, Text)>, n: nat, buf: seq<byte>)
    requires n > 0 && Follows(all, done, GetAttributes(n, buf)) && GetAttribute(buf).Ok?
    ensures var (a, rest) := GetAttribute(buf).value; Follows(all, done + [a], GetAttributes(n - 1, rest))
  {
    var (a, rest) := GetAttribute(buf).value;
    var tail := GetAttributes(n - 1, rest);
    if tail.Ok? {
      assert done + ([a] + tail.value.0) == done + [a] + tail.value.0;
    }
  }

  // ---- The two are inverse ----

  lemma GetPutText(t: Text, more: seq<byte>)
    requires |t| <= 255 && Utf8.Scan(t).Valid?
    ensures GetText(PutText(t) + more) == Ok((t, more))
  {
    SmallByte(|t|);
    Peel(|t|, t, more);
  }

  lemma PutGetText(buf: seq<byte>)
    requires buf != [] && GetText(buf).Ok?
    ensures var (t, rest) := GetText(buf).value; |t| <= 255 && Utf8.Scan(t).Valid? && buf == PutText(t) + rest
  {
  }

  lemma {:induction false} GetPutAttributes(a: seq<(Text, Text)>, more: seq<byte>)
    requires AllText(a)
    requires AllShort(a)
    ensures GetAttributes(|a|, PutAttributes(a) + more) == Ok((a, more))
  {
    if a == [] {
      assert PutAttributes(a) + more == more;
    } else {
      var (key, value) := a[0];
      var rest := PutAttributes(a[1..]) + more;
      assert a == [a[0]] + a[1..];
      PutCons(a[0], a[1..], more);
      assert PutText(key) + PutText(value) + rest == PutText(key) + (PutText(value) + rest);
      GetPutText(key, PutText(value) + rest);
      GetPutText(value, rest);
      GetPutAttributes(a[1..], more);
    }
  }

  lemma PutGetAttribute(buf: seq<byte>)
    requires GetAttribute(buf).Ok?
    ensures var (a, rest) := GetAttribute(buf).value;
      && Utf8.Scan(a.0).Valid? && Utf8.Scan(a.1).Valid? && |a.0| <= 255 && |a.1| <= 255
      && buf == PutText(a.0) + PutText(a.1) + rest
  {
    PutGetText(buf);
    PutGetText(GetText(buf).value.1);
  }

  lemma {:induction false} PutGetAttributes(n: nat, buf: seq<byte>)
    requires GetAttributes(n, buf).Ok?
    ensures var (a, rest) := GetAttributes(n, buf).value;
      && |a| == n
      && AllText(a)
      && AllShort(a)
      && buf == PutAttributes(a) + rest
  {
    hide Utf8.Scan, PutText, GetText;
    if n > 0 {
      PutGetAttribute(buf);
      var (head, mid) := GetAttribute(buf).value;
      PutGetAttributes(n - 1, mid);
      var (tail, rest) := GetAttributes(n - 1, mid).value;
      PutCons(head, tail, rest);
    }
  }

  lemma PutCons(head: (Text, Text), tail: seq<(Text, Text)>, rest: seq<byte>)
    ensures PutAttributes([head] + tail) + rest == PutText(head.0) + PutText(head.1) + (PutAttributes(tail) + rest)
    ensures AllText([head] + tail) <==> Utf8.Scan(head.0).Valid? && Utf8.Scan(head.1).Valid? && AllText(tail)
    ensures AllShort([head] + tail) <==> |head.0| <= 255 && |head.1| <= 255 && AllShort(tail)
  {
    var a := [head] + tail;
    assert a[1..] == tail && a[0] == head;
    assert forall i :: 0 <= i < |tail| ==> tail[i] == a[i + 1];
  }

  lemma GetTailSteps(buf: seq<byte>, sensor: Text, rest: seq<byte>, attributes: seq<(Text, Text)>, end: seq<byte>,
      status: Status)
    requires buf != [] && GetText(buf) == Ok((sensor, rest))
    requires rest != [] && GetAttributes(rest[0], rest[1..]) == Ok((attributes, end))
    requires end != [] && GetStatus(end[0]) == Ok(status)
    ensures GetTail(buf) == Ok((sensor, attributes, status))
  {
  }

  lemma GetPutStatus(s: Status)
    ensures GetStatus(PutStatus(s)) == Ok(s)
  {
  }

  lemma GetPutTail(s: Span, more: seq<byte>)
    requires WellTyped(s) && Fits(s)
    ensures PutTail(s) + more != []
    ensures GetTail(PutTail(s) + more) == Ok((s.sensorId, s.attributes, s.status))
  {
    var n, a, status := AsByte(|s.attributes|), PutAttributes(s.attributes), PutStatus(s.status);
    var end := [status] + more;
    var rest := [n] + (a + end);
    Regroup(PutText(s.sensorId), [n], a, [status], more);
    GetPutText(s.sensorId, rest);
    SmallByte(|s.attributes|);
    GetPutAttributes(s.attributes, end);
    Split([n], a + end);
    assert rest[0] == |s.attributes| && rest[1..] == a + end;
    GetPutStatus(s.status);
    GetTailSteps(PutTail(s) + more, s.sensorId, rest, s.attributes, end, s.status);
  }

  lemma PutGetTail(buf: seq<byte>, s: Span)
    requires buf != [] && GetTail(buf) == Ok((s.sensorId, s.attributes, s.status))
    ensures |s.sensorId| <= 255 && Utf8.Scan(s.sensorId).Valid? && |s.attributes| <= 255
    ensures AllText(s.attributes)
    ensures AllShort(s.attributes)
    ensures IsPrefix(PutTail(s), buf)
  {
    hide Utf8.Scan, PutText, GetText, GetAttributes, PutAttributes, AllText, AllShort;
    PutGetText(buf);
    var rest := GetText(buf).value.1;
    PutGetAttributes(rest[0], rest[1..]);
    var end := GetAttributes(rest[0], rest[1..]).value.1;
    SmallByte(|s.attributes|);
    assert rest == [rest[0]] + rest[1..] && end == [end[0]] + end[1..];
    TailParts(buf, s, rest, end);
  }

  lemma TailParts(buf: seq<byte>, s: Span, rest: seq<byte>, end: seq<byte>)
    requires rest != [] && end != [] && buf == PutText(s.sensorId) + rest
    requires rest == [AsByte(|s.attributes|)] + (PutAttributes(s.attributes) + end) &&
      end == [PutStatus(s.status)] + end[1..]
    ensures IsPrefix(PutTail(s), buf)
  {
    hide PutText, PutAttributes, PutStatus, AsByte;
    Regroup(PutText(s.sensorId), [AsByte(|s.attributes|)], PutAttributes(s.attributes), [PutStatus(s.status)],
      end[1..]);
    assert buf == PutTail(s) + end[1..];
    Split(PutTail(s), end[1..]);
  }

  lemma TimesRoundTrip(s: Span)
    ensures var b := PutTimes(s);
      && GetU64(b[..8]) == s.start && GetU64(b[8..16]) == s.end
      && Signed(GetU64(b[16..24])) == s.tEvent && Signed(GetU64(b[24..32])) == s.tSystem
  {
    var b := PutTimes(s);
    assert b[..8] == ToBe(8, s.start) && b[8..16] == ToBe(8, s.end);
    assert b[16..24] == ToBe(8, Unsigned(s.tEvent)) && b[24..32] == ToBe(8, Unsigned(s.tSystem));
    RadixOfEight();
    FromToBe(8, s.start);
    FromToBe(8, s.end);
    FromToBe(8, Unsigned(s.tEvent));
    FromToBe(8, Unsigned(s.tSystem));
  }

  lemma TimesUnique(b: seq<byte>, s: Span)
    requires |b| == 32
    requires GetU64(b[..8]) == s.start && GetU64(b[8..16]) == s.end
    requires Signed(GetU64(b[16..24])) == s.tEvent && Signed(GetU64(b[24..32])) == s.tSystem
    ensures b == PutTimes(s)
  {
    hide ToBe, FromBe;
    ToFromBe(b[..8]);
    ToFromBe(b[8..16]);
    ToFromBe(b[16..24]);
    ToFromBe(b[24..32]);
    assert b == b[..8] + b[8..16] + b[16..24] + b[24..32];
  }

  /** Decoding an encoding, whatever follows it, gives the span back. */
  lemma DecodeEncode(s: Span, more: seq<byte>)
    requires WellTyped(s) && Fits(s)
    ensures Decoded(Wire(s) + more) == Ok(s)
  {
    hide Utf8.Scan, PutText, GetText;
    var data := Wire(s) + more;
    var tail := PutTail(s) + more;
    var rest := PutTimes(s) + tail;
    EncodedSizeExact(s);
    assert data == s.traceId + s.spanId + s.parentSpanId + (PutText(s.name) + rest);
    assert data[..16] == s.traceId && data[16..24] == s.spanId && data[24..32] == s.parentSpanId;
    assert data[32..] == PutText(s.name) + rest;
    GetPutText(s.name, rest);
    assert rest[..32] == PutTimes(s) && rest[32..] == tail;
    assert rest[..8] == PutTimes(s)[..8] && rest[8..16] == PutTimes(s)[8..16];
    assert rest[16..24] == PutTimes(s)[16..24] && rest[24..32] == PutTimes(s)[24..32];
    TimesRoundTrip(s);
    GetPutTail(s, more);
  }

  /** Whatever decodes to a span starts with the encoding of that span, which fits. */
  lemma EncodeDecode(data: seq<byte>)
    requires Decoded(data).Ok?
    ensures var s := Decoded(data).value; WellTyped(s) && Fits(s) && IsPrefix(Wire(s), data)
  {
    var s := Decoded(data).value;
    PutGetText(data[32..]);
    var rest := GetText(data[32..]).value.1;
    TimesSlices(rest);
    TimesUnique(rest[..32], s);
    PutGetTail(rest[32..], s);
    WireFromParts(data, s, rest);
  }

  lemma TimesSlices(rest: seq<byte>)
    requires |rest| >= 32
    ensures var b := rest[..32];
      b[..8] == rest[..8] && b[8..16] == rest[8..16] && b[16..24] == rest[16..24] && b[24..32] == rest[24..32]
  {
  }

  lemma IdsFirst(data: seq<byte>)
    requires |data| >= 32
    ensures data == data[..16] + data[16..24] + data[24..32] + data[32..]
  {
  }

  lemma WireFromParts(data: seq<byte>, s: Span, rest: seq<byte>)
    requires |data| >= 32 && data[..16] == s.traceId && data[16..24] == s.spanId && data[24..32] == s.parentSpanId
    requires data[32..] == PutText(s.name) + rest
    requires |rest| >= 32 && rest[..32] == PutTimes(s) && IsPrefix(PutTail(s), rest[32..])
    ensures IsPrefix(Wire(s), data)
  {
    hide PutText, PutTail, PutTimes;
    var more := rest[32..][|PutTail(s)|..];
    assert rest == PutTimes(s) + (PutTail(s) + more);
    IdsFirst(data);
    Regroup(s.traceId + s.spanId + s.parentSpanId, PutText(s.name), PutTimes(s), PutTail(s), more);
    Split(Wire(s), more);
  }

  lemma BadTail(s: Span, x: byte)
    requires WellTyped(s) && Fits(s) && x > 1
    ensures GetTail(PutTail(s)[|PutTail(s)| - 1 := x]) == Err(BadStatus)
  {
    hide Utf8.Scan, PutText, GetText, GetAttributes, PutAttributes, AllText, AllShort;
    var n, a := AsByte(|s.attributes|), PutAttributes(s.attributes);
    var tail, rest := PutTail(s)[|PutTail(s)| - 1 := x], [n] + (a + [x]);
    assert tail == PutText(s.sensorId) + rest;
    GetPutText(s.sensorId, rest);
    SmallByte(|s.attributes|);
    GetPutAttributes(s.attributes, [x]);
    assert rest[0] == |s.attributes| && rest[1..] == a + [x];
  }

  /** An encoding with another last byte decodes to the span with that status, or is refused when there is none. */
  lemma LastByte(s: Span, x: byte)
    requires WellTyped(s) && Fits(s)
    ensures Decoded(Wire(s)[|Wire(s)| - 1 := x]) ==
      if x == 0 then Ok(s.(status := StatusOk)) else if x == 1 then Ok(s.(status := StatusError)) else Err(BadStatus)
  {
    hide Utf8.Scan, PutText, GetText, PutAttributes;
    var data := Wire(s)[|Wire(s)| - 1 := x];
    if x <= 1 {
      var t := s.(status := if x == 0 then StatusOk else StatusError);
      assert Wire(t) + [] == data;
      DecodeEncode(t, []);
    } else {
      var tail := PutTail(s)[|PutTail(s)| - 1 := x];
      var rest := PutTimes(s) + tail;
      EncodedSizeExact(s);
      assert data == s.traceId + s.spanId + s.parentSpanId + (PutText(s.name) + rest);
      assert data[32..] == PutText(s.name) + rest;
      GetPutText(s.name, rest);
      assert rest[32..] == tail;
      hide PutTail, GetTail, PutTimes;
      BadTail(s, x);
    }
  }

  /** A name that is not UTF-8 is refused. */
  lemma BadName(s: Span, more: seq<byte>)
    requires |s.traceId| == 16 && |s.spanId| == 8 && |s.parentSpanId| == 8 && |s.name| <= 255
    requires !Utf8.Scan(s.name).Valid?
    ensures Decoded(Wire(s) + more) == Err(BadText)
  {
    hide Utf8.Scan, PutTimes, PutAttributes;
    var data, rest := Wire(s) + more, PutTimes(s) + PutTail(s) + more;
    assert data == s.traceId + s.spanId + s.parentSpanId + (PutText(s.name) + rest);
    assert data[32..] == PutText(s.name) + rest;
    SmallByte(|s.name|);
    Peel(|s.name|, s.name, rest);
  }

  /** A span survives the codec exactly when its texts and its attribute count fit in a byte. */
  lemma RoundTripIffFits(s: Span, more: seq<byte>)
    requires WellTyped(s)
    ensures Decoded(Wire(s) + more) == Ok(s) <==> Fits(s)
  {
    if Fits(s) {
      DecodeEncode(s, more);
    } else if Decoded(Wire(s) + more) == Ok(s) {
      EncodeDecode(Wire(s) + more);
    }
  }

  /** The code is prefix-free: no proper prefix of an encoding decodes. */
  lemma TruncationNeverDecodes(s: Span, k: nat)
    requires WellTyped(s) && Fits(s) && k < |Wire(s)|
    ensures !Decoded(Wire(s)[..k]).Ok?
  {
    hide Utf8.Scan, Wire, Decoded;
    var cut := Wire(s)[..k];
    if Decoded(cut).Ok? {
      EncodeDecode(cut);
      var s' := Decoded(cut).value;
      var more := Wire(s)[|Wire(s')|..];
      assert Wire(s) == Wire(s') + more;
      DecodeEncode(s', more);
      assert Wire(s) + [] == Wire(s);
      DecodeEncode(s, []);
    }
  }

  /** The missing checks are real: a name that uses up the bytes the first check counted on makes decoding panic. */
  lemma UncheckedRead()
    ensures exists data: seq<byte> :: |data| == 68 && Decoded(data) == Panics
  {
    var data: seq<byte> := seq(68, i => if i == 32 then 35 else 0);
    ZerosAreText(35);
    assert data[32..][1..36] == seq(35, i => 0);
    assert GetText(data[32..]).Ok? && |GetText(data[32..]).value.1| == 0;
    assert Decoded(data) == Panics;
  }

  lemma {:induction false} ZerosAreText(n: nat)
    ensures Utf8.Scan(seq<byte>(n, i => 0)).Valid?
  {
    if n > 0 {
      ZerosAreText(n - 1);
      assert seq<byte>(n, i => 0)[1..] == seq<byte>(n - 1, i => 0);
    }
  }
}
