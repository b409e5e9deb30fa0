/** When decoding a compact span reads past its input (src/otel_compact_span.rs): exactly on valid encodings that are
    cut off at the reads that are not guarded. */
module Truncation {
  import opened Bytes
  import opened CompactSpan
  import Utf8

  // ---- More input does not change what has been read ----

  lemma TextMore(buf: seq<byte>, more: seq<byte>)
    requires buf != [] && GetText(buf).Ok?
    ensures var (t, rest) := GetText(buf).value; GetText(buf + more) == Ok((t, rest + more))
  {
    hide Utf8.Scan, GetText, PutText;
    PutGetText(buf);
    var (t, rest) := GetText(buf).value;
    assert buf + more == PutText(t) + (rest + more);
    GetPutText(t, rest + more);
  }

  lemma AttributesMore(n: nat, buf: seq<byte>, more: seq<byte>)
    requires GetAttributes(n, buf).Ok?
    ensures var (a, rest) := GetAttributes(n, buf).value; GetAttributes(n, buf + more) == Ok((a, rest + more))
  {
    hide AllText, AllShort, GetAttributes, PutAttributes;
    PutGetAttributes(n, buf);
    var (a, rest) := GetAttributes(n, buf).value;
    assert buf + more == PutAttributes(a) + (rest + more);
    GetPutAttributes(a, rest + more);
  }

  lemma TextNeverPanics(buf: seq<byte>)
    requires buf != []
    ensures !GetText(buf).Panics?
  {
  }

  lemma {:induction false} AttributesNeverPanic(n: nat, buf: seq<byte>)
    ensures !GetAttributes(n, buf).Panics?
  {
    hide Utf8.Scan;
    if n > 0 && GetAttribute(buf).Ok? {
      AttributesNeverPanic(n - 1, GetAttribute(buf).value.1);
    }
  }

  // ---- Where an encoding may be cut ----

  /** The cut leaves less than the timestamps and the sensor length after the name, or stops right before the attribute
      count or the status. */
  ghost predicate PanicCut(s: Span, k: nat) {
    var n := 33 + |s.name|;
    68 <= k < |Wire(s)| && (n <= k < n + 33 || k == n + 33 + |s.sensorId| || k == |Wire(s)| - 1)
  }

  lemma CutText(t: Text, x: seq<byte>, j: nat)
    requires |t| <= 255 && Utf8.Scan(t).Valid? && 1 <= j <= 1 + |t| + |x|
    ensures GetText((PutText(t) + x)[..j]) == if j < 1 + |t| then Err(ShortText) else Ok((t, x[..j - 1 - |t|]))
  {
    SmallByte(|t|);
    var cut := (PutText(t) + x)[..j];
    assert cut[0] == |t|;
    if j >= 1 + |t| {
      assert cut == PutText(t) + x[..j - 1 - |t|];
      GetPutText(t, x[..j - 1 - |t|]);
    }
  }

  /** An attribute's key or value starts at m. */
  predicate AtStart(a: seq<(Text, Text)>, m: nat) {
    a != [] &&
    (m == 0 || m == 1 + |a[0].0| ||
     var size := 2 + |a[0].0| + |a[0].1|; m >= size && AtStart(a[1..], m - size))
  }

  lemma {:induction false} CutAttributes(a: seq<(Text, Text)>, m: nat)
    requires AllText(a) && AllShort(a) && m < |PutAttributes(a)|
    ensures GetAttributes(|a|, PutAttributes(a)[..m]) == Err(if AtStart(a, m) then ShortAttribute else ShortText)
  {
    hide Utf8.Scan, GetText, PutText;
    var (key, value) := a[0];
    var rest := PutAttributes(a[1..]);
    TextSize(key);
    TextSize(value);
    var n := 2 + |key| + |value|;
    assert PutAttributes(a) == PutText(key) + (PutText(value) + rest);
    if m >= 1 {
      CutText(key, PutText(value) + rest, m);
      if m >= 2 + |key| {
        CutText(value, rest, m - 1 - |key|);
        if m >= n {
          CutAttributes(a[1..], m - n);
        }
      }
    }
  }

  lemma WholeAttributes(a: seq<(Text, Text)>)
    requires AllText(a) && AllShort(a)
    ensures GetAttributes(|a|, PutAttributes(a)) == Ok((a, []))
  {
    hide AllText, AllShort, GetAttributes, PutAttributes;
    GetPutAttributes(a, []);
    assert PutAttributes(a) + [] == PutAttributes(a);
  }

  lemma CutTail(s: Span, j: nat)
    requires WellTyped(s) && Fits(s) && 1 <= j < |PutTail(s)|
    ensures var m := j - 2 - |s.sensorId|;
      GetTail(PutTail(s)[..j]) ==
        if m < -1 then Err(ShortText)
        else if m == -1 || j == |PutTail(s)| - 1 then Panics
        else Err(if AtStart(s.attributes, m) then ShortAttribute else ShortText)
  {
    hide Utf8.Scan, GetText, PutText, GetAttributes, PutAttributes, AtStart;
    var n, a, end := AsByte(|s.attributes|), PutAttributes(s.attributes), PutStatus(s.status);
    var x := [n] + (a + [end]);
    assert PutTail(s) == PutText(s.sensorId) + x;
    TextSize(s.sensorId);
    CutText(s.sensorId, x, j);
    SmallByte(|s.attributes|);
    var i := j - 1 - |s.sensorId|;
    if i >= 1 {
      assert x[..i][0] == n && x[..i][1..] == a[..i - 1];
      if i - 1 < |a| {
        CutAttributes(s.attributes, i - 1);
      } else {
        assert a[..i - 1] == a;
        WholeAttributes(s.attributes);
      }
    }
  }

  lemma TextSize(t: Text)
    ensures |PutText(t)| == 1 + |t|
  {
  }

  /** What decoding makes of an encoding cut after k bytes: an error that names what is missing, or a panic where the
      missing bytes are read unguarded. */
  lemma CutOutcome(s: Span, k: nat)
    requires WellTyped(s) && Fits(s) && k < |Wire(s)|
    ensures var n := 33 + |s.name|; var m := n + 33 + |s.sensorId|;
      Decoded(Wire(s)[..k]) ==
        if k < 68 then Err(ShortSpan)
        else if k < n then Err(ShortText)
        else if k < n + 33 then Panics
        else if k < m then Err(ShortText)
        else if k == m || k == |Wire(s)| - 1 then Panics
        else Err(if AtStart(s.attributes, k - m - 1) then ShortAttribute else ShortText)
  {
    hide Utf8.Scan, GetText, PutText, PutTail, PutTimes, GetTail, AtStart;
    var x := PutTimes(s) + PutTail(s);
    var cut := Wire(s)[..k];
    TextSize(s.name);
    TailSize(s);
    if k >= 68 {
      assert cut[32..] == (PutText(s.name) + x)[..k - 32];
      CutText(s.name, x, k - 32);
      var i := k - 33 - |s.name|;
      if i >= 33 {
        assert x[..i][32..] == PutTail(s)[..i - 32];
        CutTail(s, i - 32);
      }
    }
  }

  /** Cutting an encoding makes decoding panic exactly at those places. */
  lemma CutIff(s: Span, k: nat)
    requires WellTyped(s) && Fits(s) && k < |Wire(s)|
    ensures Decoded(Wire(s)[..k]).Panics? <==> PanicCut(s, k)
  {
    hide Utf8.Scan, Decoded, Wire, AtStart;
    EncodedSizeExact(s);
    CutOutcome(s, k);
  }

  lemma TailSize(s: Span)
    ensures |PutTail(s)| >= 3 + |s.sensorId|
  {
  }

  // ---- Every panic is such a cut ----

  lemma TailCompletes(buf: seq<byte>) returns (more: seq<byte>)
    requires buf != [] && GetTail(buf).Panics?
    ensures GetTail(buf + more).Ok?
  {
    hide Utf8.Scan, GetText, GetAttributes;
    TextNeverPanics(buf);
    var (sensor, rest) := GetText(buf).value;
    if rest == [] {
      more := [0, 0];
      TextMore(buf, more);
      assert rest + more == [0, 0] && [0, 0][1..] == [0];
      NoAttributes([0]);
    } else {
      more := [0];
      AttributesNeverPanic(rest[0], rest[1..]);
      TextMore(buf, more);
      AttributesMore(rest[0], rest[1..], more);
      assert (rest + more)[1..] == rest[1..] + more && (rest + more)[0] == rest[0];
    }
  }

  lemma NoAttributes(buf: seq<byte>)
    ensures GetAttributes(0, buf) == Ok(([], buf))
  {
  }

  lemma ZeroTail()
    ensures GetTail([0, 0, 0]).Ok?
  {
    assert [0, 0, 0][1..1] == [] && [0, 0, 0][1..] == [0, 0] && [0, 0][1..] == [0];
    assert GetText([0, 0, 0]) == Ok(([], [0, 0]));
  }

  lemma Completes(data: seq<byte>) returns (more: seq<byte>)
    requires Decoded(data).Panics?
    ensures Decoded(data + more).Ok?
  {
    hide Utf8.Scan, GetText, GetTail;
    TextNeverPanics(data[32..]);
    var (name, rest) := GetText(data[32..]).value;
    if |rest| < 33 {
      more := seq(35 - |rest|, i => 0);
      ZeroTail();
      assert (rest + more)[32..] == [0, 0, 0];
    } else {
      more := TailCompletes(rest[32..]);
      assert (rest + more)[32..] == rest[32..] + more;
    }
    TextMore(data[32..], more);
    assert (data + more)[32..] == data[32..] + more;
  }

  /** Decoding panics exactly on a valid encoding that is cut off at an unguarded read. */
  lemma PanicsIff(data: seq<byte>)
    ensures Decoded(data).Panics? <==>
      exists s: Span :: WellTyped(s) && Fits(s) && PanicCut(s, |data|) && data == Wire(s)[..|data|]
  {
    hide Decoded, Wire, Utf8.Scan;
    if Decoded(data).Panics? {
      var more := Completes(data);
      EncodeDecode(data + more);
      var s := Decoded(data + more).value;
      if |Wire(s)| <= |data| {
        var rest := data[|Wire(s)|..];
        assert data == Wire(s) + rest;
        DecodeEncode(s, rest);
      } else {
        assert data == Wire(s)[..|data|];
        CutIff(s, |data|);
      }
    }
    forall s: Span | WellTyped(s) && Fits(s) && PanicCut(s, |data|) && data == Wire(s)[..|data|]
      ensures Decoded(data).Panics?
    {
      CutIff(s, |data|);
    }
  }
}
