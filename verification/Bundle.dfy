/** Telemetry bundles (src/otel_bundle.rs). The compression libraries are parameters. */
module Bundle {
  import opened Bytes
  import opened CompactSpan

  datatype Compression = Plain | Zstd | Gzip

  datatype Bundle = Bundle(
    sequenceNumber: u64, timestamp: i64, compression: Compression, spans: seq<Span>, compressed: Option<seq<byte>>)

  /** A compressor may fail at a level; a decompressor may reject its input. */
  datatype Library = Library(
    pack: (Compression, int, seq<byte>) -> Option<seq<byte>>,
    unpack: (Compression, seq<byte>) -> Option<seq<byte>>)

  ghost predicate Lossless(lib: Library) {
    forall k, level, raw :: lib.pack(k, level, raw).Some? ==> lib.unpack(k, lib.pack(k, level, raw).value) == Some(raw)
  }

  /** The spans, each behind its length. */
  function Raw(spans: seq<Span>): seq<byte> {
    if spans == [] then [] else ToBe(4, |Wire(spans[0])|) + Wire(spans[0]) + Raw(spans[1..])
  }

  function Payload(b: Bundle): seq<byte> {
    if b.compressed.Some? then b.compressed.value else Raw(b.spans)
  }

  function KindByte(k: Compression): byte {
    match k
    case Plain => 0
    case Zstd => 1
    case Gzip => 2
  }

  /** Sequence number, timestamp, compression type, data flag. */
  function Header(b: Bundle): (h: seq<byte>)
    ensures |h| == 18
  {
    var flag := if b.compressed.Some? || b.spans != [] then 1 else 0;
    ToBe(8, b.sequenceNumber) + ToBe(8, Unsigned(b.timestamp)) + [KindByte(b.compression)] + [flag]
  }

  function BundleWire(b: Bundle): seq<byte> {
    Header(b) + ToBe(4, |Payload(b)|) + Payload(b)
  }

  function EncodedSize(b: Bundle): nat {
    8 + 8 + 1 + 1 + 4 + (if b.compressed.Some? then |b.compressed.value| else SpansSize(b.spans))
  }

  function SpansSize(spans: seq<Span>): nat {
    if spans == [] then 0 else 4 + CompactSpan.EncodedSize(spans[0]) + SpansSize(spans[1..])
  }

  ghost predicate AllWellTyped(spans: seq<Span>) {
    forall i :: 0 <= i < |spans| ==> WellTyped(spans[i])
  }

  ghost predicate AllFit(spans: seq<Span>) {
    forall i :: 0 <= i < |spans| ==> Fits(spans[i])
  }

  lemma {:induction false} SpansSizeExact(spans: seq<Span>)
    requires AllWellTyped(spans)
    ensures |Raw(spans)| == SpansSize(spans)
  {
    if spans != [] {
      EncodedSizeExact(spans[0]);
      SpansSizeExact(spans[1..]);
    }
  }

  /** The size estimate of a bundle is exact. */
  lemma BundleSizeExact(b: Bundle)
    requires AllWellTyped(b.spans)
    ensures |BundleWire(b)| == EncodedSize(b)
  {
    SpansSizeExact(b.spans);
  }

  datatype BundleError =
    | ShortHeader
    | BadCompression
    | ShortPayload
    | ShortSpanData
    | Unpackable
    | BadSpan(span: DecodeError)

  datatype Reading<+T> = Read(value: T) | Failed(error: BundleError) | Crashed

  /** Spans are read while four bytes remain. */
  function ReadSpans(buf: seq<byte>): Reading<seq<Span>> {
    if |buf| < 4 then Read([])
    else
      var n := FromBe(buf[..4]);
      if |buf| < 4 + n then Failed(ShortSpanData)
      else
        match Decoded(buf[4..4 + n])
        case Err(e) => Failed(BadSpan(e))
        case Panics => Crashed
        case Ok(span) =>
          match ReadSpans(buf[4 + n..])
          case Failed(e) => Failed(e)
          case Crashed => Crashed
          case Read(more) => Read([span] + more)
  }

  function ReadPayload(lib: Library, k: Compression, data: seq<byte>): Reading<seq<Span>> {
    if k == Plain then ReadSpans(data)
    else
      match lib.unpack(k, data)
      case None => Failed(Unpackable)
      case Some(raw) => ReadSpans(raw)
  }

  function KindOf(b: byte): Option<Compression> {
    match b
    case 0 => Some(Plain)
    case 1 => Some(Zstd)
    case 2 => Some(Gzip)
    case _ => None
  }

  function ReadBundle(lib: Library, data: seq<byte>): Reading<Bundle> {
    if |data| < 22 then Failed(ShortHeader)
    else if KindOf(data[16]).None? then Failed(BadCompression)
    else
      var k := KindOf(data[16]).value;
      var n := FromBe(data[18..22]);
      if |data| < 22 + n then Failed(ShortPayload)
      else
        var empty := Bundle(GetU64(data[..8]), Signed(GetU64(data[8..16])), k, [], None);
        if data[17] != 1 then Read(empty)
        else
          match ReadPayload(lib, k, data[22..22 + n])
          case Failed(e) => Failed(e)
          case Crashed => Crashed
          case Read(spans) => Read(empty.(spans := spans))
  }

  // ---- The decoder ----

  function Prepend(spans: seq<Span>, r: Reading<seq<Span>>): Reading<seq<Span>> {
    match r
    case Read(more) => Read(spans + more)
    case _ => r
  }

  lemma PrependTwice(a: seq<Span>, b: seq<Span>, r: Reading<seq<Span>>)
    ensures Prepend(a, Prepend(b, r)) == Prepend(a + b, r) && Prepend([], r) == r
  {
    if r.Read? {
      assert a + (b + r.value) == (a + b) + r.value && [] + r.value == r.value;
    }
  }

  lemma ReadSpansStep(buf: seq<byte>, n: nat)
    requires |buf| >= 4 && n == FromBe(buf[..4]) && |buf| >= 4 + n && Decoded(buf[4..4 + n]).Ok?
    ensures ReadSpans(buf) == Prepend([Decoded(buf[4..4 + n]).value], ReadSpans(buf[4 + n..]))
  {
    hide Decoded, FromBe;
  }

  /** The span loop: a cursor over the raw data. */
  method DecodeSpans(buf: seq<byte>) returns (r: Reading<seq<Span>>)
    ensures r == ReadSpans(buf)
  {
    hide Decoded, FromBe;
    var spans: seq<Span> := [];
    var cursor := buf;
    PrependTwice([], [], ReadSpans(buf));
    while |cursor| >= 4
      invariant Prepend(spans, ReadSpans(cursor)) == ReadSpans(buf)
      decreases |cursor|
    {
      var n := FromBe(cursor[..4]);
      if |cursor| - 4 < n {
        return Failed(ShortSpanData);
      }
      var span := CompactSpan.Decode(cursor[4..4 + n]);
      if span.Err? {
        return Failed(BadSpan(span.error));
      } else if span.Panics? {
        return Crashed;
      }
      ReadSpansStep(cursor, n);
      PrependTwice(spans, [span.value], ReadSpans(cursor[4 + n..]));
      spans := spans + [span.value];
      cursor := cursor[4 + n..];
    }
    assert spans + [] == spans;
    r := Read(spans);
  }

  method Decode(lib: Library, data: seq<byte>) returns (r: Reading<Bundle>)
    ensures r == ReadBundle(lib, data)
  {
    hide ReadSpans;
    if |data| < 22 {
      return Failed(ShortHeader);
    }
    var kind := KindOf(data[16]);
    if kind.None? {
      return Failed(BadCompression);
    }
    var n := FromBe(data[18..22]);
    if |data| - 22 < n {
      return Failed(ShortPayload);
    }
    var bundle := Bundle(GetU64(data[..8]), Signed(GetU64(data[8..16])), kind.value, [], None);
    if data[17] == 1 {
      var raw := if kind.value == Plain then Some(data[22..22 + n]) else lib.unpack(kind.value, data[22..22 + n]);
      if raw.None? {
        return Failed(Unpackable);
      }
      var spans := DecodeSpans(raw.value);
      match spans {
        case Failed(e) => return Failed(e);
        case Crashed => return Crashed;
        case Read(all) => bundle := bundle.(spans := all);
      }
    }
    r := Read(bundle);
  }

  // ---- Operations ----

  datatype Op = Add(span: Span) | SetCompression(kind: Compression) | Compress(level: int)

  function New(sequenceNumber: u64, now: i64): Bundle {
    Bundle(sequenceNumber, now, Plain, [], None)
  }

  /** Whether compression reports an error, which leaves the bundle as it was. */
  predicate CompressFails(lib: Library, b: Bundle, level: int) {
    b.spans != [] && b.compression != Plain && lib.pack(b.compression, level, Raw(b.spans)).None?
  }

  function Apply(lib: Library, b: Bundle, op: Op): Bundle {
    match op
    case Add(span) => b.(spans := b.spans + [span])
    case SetCompression(kind) => b.(compression := kind)
    case Compress(level) =>
      if b.spans == [] || CompressFails(lib, b, level) then b
      else if b.compression == Plain then b.(compressed := None)
      else b.(compressed := lib.pack(b.compression, level, Raw(b.spans)))
  }

  function Run(lib: Library, b: Bundle, ops: seq<Op>): Bundle {
    if ops == [] then b else Apply(lib, Run(lib, b, ops[..|ops| - 1]), ops[|ops| - 1])
  }

  /** The spans added in a run, in order, and the type set last. */
  function Added(ops: seq<Op>): seq<Span> {
    if ops == [] then []
    else
      var op := ops[|ops| - 1];
      Added(ops[..|ops| - 1]) + if op.Add? then [op.span] else []
  }

  function LastKind(ops: seq<Op>): Compression {
    if ops == [] then Plain
    else if ops[|ops| - 1].SetCompression? then ops[|ops| - 1].kind
    else LastKind(ops[..|ops| - 1])
  }

  /** After any run a bundle has the sequence number and the time it was made with, the spans that were added, in order,
      and the type that was set last. */
  lemma {:induction false} FieldsAfter(lib: Library, n: u64, now: i64, ops: seq<Op>)
    ensures var b := Run(lib, New(n, now), ops);
      b.sequenceNumber == n && b.timestamp == now && b.spans == Added(ops) && b.compression == LastKind(ops)
  {
    hide CompressFails, Raw;
    if ops != [] {
      FieldsAfter(lib, n, now, ops[..|ops| - 1]);
    }
  }

  /** Each span is written behind its own length. */
  lemma {:induction false} RawLayout(a: seq<Span>, s: Span, b: seq<Span>)
    ensures Raw(a + [s] + b) == Raw(a) + (ToBe(4, |Wire(s)|) + Wire(s)) + Raw(b)
  {
    hide Wire, ToBe;
    var all := a + [s] + b;
    if a == [] {
      assert all[0] == s && all[1..] == b;
    } else {
      RawLayout(a[1..], s, b);
      assert all[0] == a[0] && all[1..] == a[1..] + [s] + b;
    }
  }

  lemma RawEmpty()
    ensures Raw([]) == []
  {
  }

  lemma RawStep(raw: seq<byte>, spans: seq<Span>, i: nat)
    requires i < |spans|
    ensures raw + Raw(spans[i..]) == raw + ToBe(4, |Wire(spans[i])|) + Wire(spans[i]) + Raw(spans[i + 1..])
  {
    hide Wire, ToBe;
    assert spans[i..][1..] == spans[i + 1..];
  }

  class TelemetryBundle {
    var sequenceNumber: u64
    var timestamp: i64
    var compression: Compression
    var spans: seq<Span>
    var compressed: Option<seq<byte>>

    function View(): Bundle
      reads this
    {
      Bundle(sequenceNumber, timestamp, compression, spans, compressed)
    }

    constructor (sequenceNumber: u64, now: i64)
      ensures View() == New(sequenceNumber, now)
    {
      this.sequenceNumber, this.timestamp := sequenceNumber, now;
      compression, spans, compressed := Plain, [], None;
    }

    method AddSpan(lib: Library, span: Span)
      modifies this
      ensures View() == Apply(lib, old(View()), Add(span))
    {
      spans := spans + [span];
    }

    method WithCompression(lib: Library, kind: Compression)
      modifies this
      ensures View() == Apply(lib, old(View()), SetCompression(kind))
    {
      compression := kind;
    }

    method RawData() returns (raw: seq<byte>)
      ensures raw == Raw(spans)
    {
      hide Wire, ToBe, Raw;
      raw := [];
      RawEmpty();
      assert spans[0..] == spans && [] + Raw(spans) == Raw(spans);
      for i := 0 to |spans|
        invariant raw + Raw(spans[i..]) == Raw(spans)
      {
        var encoded := CompactSpan.Encode(spans[i]);
        RawStep(raw, spans, i);
        raw := raw + ToBe(4, |encoded|) + encoded;
      }
      assert spans[|spans|..] == [] && raw + [] == raw;
    }

    method Compress(lib: Library, level: int) returns (ok: bool)
      modifies this
      ensures ok == !CompressFails(lib, old(View()), level)
      ensures View() == Apply(lib, old(View()), Op.Compress(level))
    {
      if spans == [] {
        return true;
      }
      if compression == Plain {
        compressed := None;
        return true;
      }
      var raw := RawData();
      var packed := lib.pack(compression, level, raw);
      if packed.None? {
        return false;
      }
      compressed := packed;
      return true;
    }

    method Encode() returns (buf: seq<byte>)
      ensures buf == BundleWire(View())
    {
      buf := Header(View());
      if compressed.Some? {
        buf := buf + ToBe(4, |compressed.value|) + compressed.value;
      } else {
        var raw := RawData();
        buf := buf + ToBe(4, |raw|) + raw;
      }
    }
  }

  // ---- Round trip ----

  lemma {:induction false} AttributesBound(a: seq<(Text, Text)>)
    requires AllShort(a)
    ensures AttributesSize(a) <= 512 * |a|
  {
    if a != [] {
      AttributesBound(a[1..]);
    }
  }

  lemma WireBound(s: Span)
    requires WellTyped(s) && Fits(s)
    ensures |Wire(s)| < 0x100_0000
  {
    EncodedSizeExact(s);
    AttributesBound(s.attributes);
  }

  /** The spans are read back, and up to three bytes behind them are ignored. */
  lemma {:induction false} ReadRaw(spans: seq<Span>, extra: seq<byte>)
    requires AllWellTyped(spans) && AllFit(spans) && |extra| < 4
    ensures ReadSpans(Raw(spans) + extra) == Read(spans)
  {
    hide Wire, Decoded, Fits, WellTyped, Raw, ReadSpans, ToBe;
    if spans == [] {
      RawEmpty();
      assert [] + extra == extra;
      ShortRest(extra);
    } else {
      var s := spans[0];
      WireBound(s);
      DecodeEncode(s, []);
      assert Wire(s) + [] == Wire(s);
      ReadRaw(spans[1..], extra);
      assert spans == [] + [s] + spans[1..];
      RawLayout([], s, spans[1..]);
      RawEmpty();
      ReadFirst(s, Raw(spans[1..]) + extra, spans[1..]);
      assert Raw(spans) + extra == ToBe(4, |Wire(s)|) + Wire(s) + (Raw(spans[1..]) + extra);
      assert spans == [s] + spans[1..];
    }
  }

  lemma ShortRest(buf: seq<byte>)
    requires |buf| < 4
    ensures ReadSpans(buf) == Read([])
  {
  }

  lemma ReadFirst(s: Span, more: seq<byte>, rest: seq<Span>)
    requires Decoded(Wire(s)) == Ok(s) && |Wire(s)| < 0x100_0000 && ReadSpans(more) == Read(rest)
    ensures ReadSpans(ToBe(4, |Wire(s)|) + Wire(s) + more) == Read([s] + rest)
  {
    hide Wire, Decoded, ToBe, FromBe;
    RadixOfEight();
    FromToBe(4, |Wire(s)|);
    RawSlices(ToBe(4, |Wire(s)|), Wire(s), more);
  }

  lemma RawSlices(n: seq<byte>, w: seq<byte>, more: seq<byte>)
    requires |n| == 4
    ensures var buf := n + w + more; buf[..4] == n && buf[4..4 + |w|] == w && buf[4 + |w|..] == more
  {
  }

  /** The payload that a reader of this bundle's compression type will turn back into these spans. */
  ghost predicate Holds(lib: Library, b: Bundle, spans: seq<Span>) {
    if b.compression == Plain then Payload(b) == Raw(spans)
    else if b.compressed.Some? then lib.unpack(b.compression, b.compressed.value) == Some(Raw(spans))
    else b.spans == [] && spans == []
  }

  /** Where each field of an encoded bundle is: two big-endian words, the compression type, the data flag, the length of
      the payload and the payload. */
  lemma WireFields(b: Bundle)
    requires |Payload(b)| < 0x1_0000_0000
    ensures var w := BundleWire(b);
      && |w| == 22 + |Payload(b)| && FromBe(w[18..22]) == |Payload(b)| && w[22..] == Payload(b)
      && GetU64(w[..8]) == b.sequenceNumber && Signed(GetU64(w[8..16])) == b.timestamp
      && w[16] == (if b.compression == Plain then 0 else if b.compression == Zstd then 1 else 2)
      && w[17] == (if b.compressed.Some? || b.spans != [] then 1 else 0)
  {
    hide ToBe, FromBe, Payload;
    var w := BundleWire(b);
    RadixOfEight();
    FromToBe(4, |Payload(b)|);
    FromToBe(8, b.sequenceNumber);
    FromToBe(8, Unsigned(b.timestamp));
    var flag := if b.compressed.Some? || b.spans != [] then 1 else 0;
    FieldSlices(ToBe(8, b.sequenceNumber), ToBe(8, Unsigned(b.timestamp)), KindByte(b.compression), flag,
      ToBe(4, |Payload(b)|), Payload(b));
  }

  lemma FieldSlices(n: seq<byte>, t: seq<byte>, k: byte, flag: byte, size: seq<byte>, payload: seq<byte>)
    requires |n| == 8 && |t| == 8 && |size| == 4
    ensures var w := n + t + [k] + [flag] + size + payload;
      && |w| == 22 + |payload| && w[..8] == n && w[8..16] == t && w[16] == k && w[17] == flag
      && w[18..22] == size && w[22..] == payload
  {
  }

  lemma FlagAndPayload(lib: Library, b: Bundle)
    requires |Payload(b)| < 0x1_0000_0000
    ensures ReadBundle(lib, BundleWire(b)) ==
      (var header := b.(spans := [], compressed := None);
       if b.compressed.None? && b.spans == [] then Read(header)
       else
         match ReadPayload(lib, b.compression, Payload(b))
         case Failed(e) => Failed(e)
         case Crashed => Crashed
         case Read(spans) => Read(header.(spans := spans)))
  {
    hide BundleWire, Payload, ReadPayload, FromBe;
    WireFields(b);
    var w := BundleWire(b);
    assert w[22..22 + |Payload(b)|] == Payload(b);
  }

  /** Bytes behind a bundle are ignored. */
  lemma TrailingIgnored(lib: Library, b: Bundle, more: seq<byte>)
    requires |Payload(b)| < 0x1_0000_0000
    ensures ReadBundle(lib, BundleWire(b) + more) == ReadBundle(lib, BundleWire(b))
  {
    hide BundleWire, Payload, ReadPayload, FromBe;
    WireFields(b);
    var w := BundleWire(b);
    var n := |w|;
    var d := w + more;
    assert d[..8] == w[..8] && d[8..16] == w[8..16] && d[18..22] == w[18..22] && d[22..n] == w[22..n];
  }

  /** Any other data flag than one leaves the spans out. */
  lemma OtherFlag(lib: Library, b: Bundle, x: byte)
    requires |Payload(b)| < 0x1_0000_0000 && |BundleWire(b)| >= 22 && x != 1
    ensures ReadBundle(lib, BundleWire(b)[17 := x]) == Read(b.(spans := [], compressed := None))
  {
    hide BundleWire, Payload, ReadPayload, FromBe;
    WireFields(b);
    var w := BundleWire(b);
    var d := w[17 := x];
    assert d[..8] == w[..8] && d[8..16] == w[8..16] && d[18..22] == w[18..22];
  }

  /** A bundle that is cut off is refused, by name of what is short. */
  lemma CutBundle(lib: Library, b: Bundle, k: nat)
    requires |Payload(b)| < 0x1_0000_0000 && k < |BundleWire(b)|
    ensures ReadBundle(lib, BundleWire(b)[..k]) == Failed(if k < 22 then ShortHeader else ShortPayload)
  {
    hide BundleWire, Payload, ReadPayload, FromBe;
    WireFields(b);
    var w := BundleWire(b);
    if k >= 22 {
      assert w[..k][18..22] == w[18..22];
    }
  }

  lemma {:induction false} SpansKnowNoKind(buf: seq<byte>)
    ensures ReadSpans(buf) != Failed(BadCompression)
  {
    hide Decoded, FromBe;
    if |buf| >= 4 && |buf| >= 4 + FromBe(buf[..4]) {
      SpansKnowNoKind(buf[4 + FromBe(buf[..4])..]);
    }
  }

  /** An unknown compression type is refused as such, and nothing else is. */
  lemma UnknownKind(lib: Library, data: seq<byte>)
    requires |data| >= 22
    ensures ReadBundle(lib, data) == Failed(BadCompression) <==> data[16] > 2
  {
    hide ReadSpans, FromBe;
    var n := FromBe(data[18..22]);
    var k := KindOf(data[16]);
    if k.Some? && |data| >= 22 + n {
      var raw := lib.unpack(k.value, data[22..22 + n]);
      SpansKnowNoKind(if k == Some(Plain) || raw.None? then data[22..22 + n] else raw.value);
    }
  }

  /** What the receiver gets: the header fields as sent, and the spans the payload holds. */
  lemma Received(lib: Library, b: Bundle, spans: seq<Span>)
    requires AllWellTyped(spans) && AllFit(spans) && Holds(lib, b, spans) && |Payload(b)| < 0x1_0000_0000
    requires b.compression == Plain && b.compressed.None? ==> b.spans == spans
    ensures ReadBundle(lib, BundleWire(b)) == Read(b.(spans := spans, compressed := None))
  {
    hide AllWellTyped, AllFit, BundleWire, ReadBundle, ReadSpans, Raw;
    FlagAndPayload(lib, b);
    ReadRaw(spans, []);
    assert Raw(spans) + [] == Raw(spans);
    if b.compressed.None? && b.spans == [] {
      assert spans == [];
    }
  }

  /** Compressed data exists only over spans, in every state that the operations reach. */
  lemma {:induction false} CompressedHasSpans(lib: Library, n: u64, now: i64, ops: seq<Op>)
    ensures Run(lib, New(n, now), ops).compressed.Some? ==> Run(lib, New(n, now), ops).spans != []
  {
    if ops != [] {
      CompressedHasSpans(lib, n, now, ops[..|ops| - 1]);
    }
  }

  /** After any run of operations that ends with a successful compression, the receiver gets exactly the bundle's
      sequence number, timestamp, compression type and spans. */
  lemma RoundTripAfterCompress(lib: Library, n: u64, now: i64, ops: seq<Op>, level: int)
    requires Lossless(lib)
    requires var b := Run(lib, New(n, now), ops);
      !CompressFails(lib, b, level) && AllWellTyped(b.spans) && AllFit(b.spans)
    requires |Payload(Apply(lib, Run(lib, New(n, now), ops), Op.Compress(level)))| < 0x1_0000_0000
    ensures var b := Apply(lib, Run(lib, New(n, now), ops), Op.Compress(level));
      ReadBundle(lib, BundleWire(b)) == Read(b.(compressed := None))
  {
    var before := Run(lib, New(n, now), ops);
    var b := Apply(lib, before, Op.Compress(level));
    CompressedHasSpans(lib, n, now, ops);
    Received(lib, b, b.spans);
  }

  /** The same without compression, as long as nothing was ever compressed. */
  lemma RoundTripPlain(lib: Library, b: Bundle)
    requires b.compression == Plain && b.compressed.None? && AllWellTyped(b.spans) && AllFit(b.spans)
    requires |Raw(b.spans)| < 0x1_0000_0000
    ensures ReadBundle(lib, BundleWire(b)) == Read(b)
  {
    Received(lib, b, b.spans);
  }

  function Adds(late: seq<Span>): seq<Op> {
    if late == [] then [] else Adds(late[..|late| - 1]) + [Add(late[|late| - 1])]
  }

  lemma {:induction false} AddsRun(lib: Library, b: Bundle, late: seq<Span>)
    ensures Run(lib, b, Adds(late)) == b.(spans := b.spans + late)
  {
    if late == [] {
      assert b.spans + late == b.spans;
    } else {
      var k := |late| - 1;
      AddsRun(lib, b, late[..k]);
      assert Adds(late)[..|Adds(late)| - 1] == Adds(late[..k]);
      assert late == late[..k] + [late[k]];
    }
  }

  /** Spans added after the compression are lost: the receiver gets the spans that were compressed, which is the bundle
      exactly when nothing was added. */
  lemma AddedAfterCompressIsLost(lib: Library, b: Bundle, level: int, late: seq<Span>)
    requires Lossless(lib) && b.spans != [] && b.compression != Plain && !CompressFails(lib, b, level)
    requires AllWellTyped(b.spans) && AllFit(b.spans)
    requires |Payload(Apply(lib, b, Op.Compress(level)))| < 0x1_0000_0000
    ensures var c := Run(lib, Apply(lib, b, Op.Compress(level)), Adds(late));
      && c.spans == b.spans + late
      && ReadBundle(lib, BundleWire(c)) == Read(c.(spans := b.spans, compressed := None))
      && (ReadBundle(lib, BundleWire(c)) == Read(c.(compressed := None)) <==> late == [])
  {
    hide ReadBundle, BundleWire, Raw, AllWellTyped, AllFit;
    AddsRun(lib, Apply(lib, b, Op.Compress(level)), late);
    Received(lib, Run(lib, Apply(lib, b, Op.Compress(level)), Adds(late)), b.spans);
    assert late != [] ==> |b.spans + late| > |b.spans|;
  }

  // ---- The exact condition ----

  /** No unpacker accepts data that starts with a zero byte, as no Zstandard or gzip frame does (sections 3.1.1 and
      3.1.2 of RFC 8878, section 2.3.1 of RFC 1952). */
  ghost predicate Marked(lib: Library) {
    forall k, data :: k != Plain && data != [] && data[0] == 0 ==> lib.unpack(k, data).None?
  }

  /** The last compression that stored data: its type and the number of spans it covers; a count of 0 if there is none
      or compression under no type has since dropped the data. */
  datatype Packing = Packing(kind: Compression, count: nat)

  function PackingOf(lib: Library, b: Bundle, ops: seq<Op>): Packing {
    if ops == [] then Packing(Plain, 0)
    else
      var before, packing := Run(lib, b, ops[..|ops| - 1]), PackingOf(lib, b, ops[..|ops| - 1]);
      match ops[|ops| - 1]
      case Compress(level) =>
        if before.spans == [] || CompressFails(lib, before, level) then packing
        else Packing(before.compression, if before.compression == Plain then 0 else |before.spans|)
      case _ => packing
  }

  /** The compressed data is what the library made of the first spans, as the packing says. */
  ghost predicate Holding(lib: Library, b: Bundle, p: Packing) {
    && p.count <= |b.spans| && (b.compressed.None? <==> p.count == 0)
    && (p.count > 0 ==> p.kind != Plain)
    && (p.count > 0 ==> exists level :: b.compressed == lib.pack(p.kind, level, Raw(b.spans[..p.count])))
  }

  lemma HoldingAdd(lib: Library, b: Bundle, p: Packing, span: Span)
    requires Holding(lib, b, p)
    ensures Holding(lib, b.(spans := b.spans + [span]), p)
  {
    hide Raw;
    assert (b.spans + [span])[..p.count] == b.spans[..p.count];
  }

  lemma HoldingCompress(lib: Library, b: Bundle, level: int)
    requires b.spans != [] && b.compression != Plain && !CompressFails(lib, b, level)
    ensures Holding(lib, Apply(lib, b, Op.Compress(level)), Packing(b.compression, |b.spans|))
  {
    hide Raw;
    assert b.spans[..|b.spans|] == b.spans;
    assert Apply(lib, b, Op.Compress(level)).compressed == lib.pack(b.compression, level, Raw(b.spans));
  }

  lemma {:induction false} PackingIs(lib: Library, n: u64, now: i64, ops: seq<Op>)
    ensures Holding(lib, Run(lib, New(n, now), ops), PackingOf(lib, New(n, now), ops))
  {
    if ops != [] {
      PackingIs(lib, n, now, ops[..|ops| - 1]);
      var b, p := Run(lib, New(n, now), ops[..|ops| - 1]), PackingOf(lib, New(n, now), ops[..|ops| - 1]);
      hide Raw, CompressFails;
      match ops[|ops| - 1] {
        case Add(span) => HoldingAdd(lib, b, p, span);
        case SetCompression(_) =>
        case Compress(level) =>
          if b.spans != [] && b.compression != Plain && !CompressFails(lib, b, level) {
            HoldingCompress(lib, b, level);
          }
      }
    }
  }

  lemma FirstByteZero(v: nat)
    requires v < 0x100_0000
    ensures ToBe(4, v)[0] == 0
  {
    assert ToBe(4, v)[0] == ToBe(3, v / 256)[0] == ToBe(2, v / 256 / 256)[0] == ToBe(1, v / 256 / 256 / 256)[0];
  }

  lemma RawStartsWithZero(spans: seq<Span>)
    requires spans != [] && AllWellTyped(spans) && AllFit(spans)
    ensures Raw(spans) != [] && Raw(spans)[0] == 0
  {
    hide Wire, ToBe, WellTyped, Fits;
    WireBound(spans[0]);
    FirstByteZero(|Wire(spans[0])|);
  }

  /** Spans under a compressed type that were never compressed are written raw, and the receiver cannot unpack them. */
  lemma NeverCompressedIsRefused(lib: Library, b: Bundle)
    requires Marked(lib) && b.compression != Plain && b.compressed.None? && b.spans != []
    requires AllWellTyped(b.spans) && AllFit(b.spans) && |Payload(b)| < 0x1_0000_0000
    ensures ReadBundle(lib, BundleWire(b)) == Failed(Unpackable)
  {
    hide ReadBundle, BundleWire, Raw, AllWellTyped, AllFit;
    FlagAndPayload(lib, b);
    RawStartsWithZero(b.spans);
  }

  lemma UnpacksFirst(lib: Library, b: Bundle, p: Packing)
    requires Lossless(lib) && Holding(lib, b, p) && p.count > 0
    ensures b.compressed.Some? && lib.unpack(p.kind, b.compressed.value) == Some(Raw(b.spans[..p.count]))
  {
    hide Raw;
    var level :| b.compressed == lib.pack(p.kind, level, Raw(b.spans[..p.count]));
  }

  /** What a receiver makes of a bundle after any run of additions, changes of type and compressions, if the stored
      data, if any, is of the type the bundle has now. */
  lemma Delivered(lib: Library, n: u64, now: i64, ops: seq<Op>)
    requires Lossless(lib) && Marked(lib)
    requires var b := Run(lib, New(n, now), ops);
      AllWellTyped(b.spans) && AllFit(b.spans) && |Payload(b)| < 0x1_0000_0000
    requires var b, p := Run(lib, New(n, now), ops), PackingOf(lib, New(n, now), ops);
      p.count == 0 || p.kind == b.compression
    ensures var b, p := Run(lib, New(n, now), ops), PackingOf(lib, New(n, now), ops);
      && p.count <= |b.spans|
      && ReadBundle(lib, BundleWire(b)) ==
         if b.compression == Plain then Read(b)
         else if p.count == 0 && b.spans != [] then Failed(Unpackable)
         else Read(b.(spans := b.spans[..p.count], compressed := None))
  {
    hide ReadBundle, BundleWire, Raw, AllWellTyped, AllFit, Run, PackingOf, Lossless, Marked;
    var b, p := Run(lib, New(n, now), ops), PackingOf(lib, New(n, now), ops);
    PackingIs(lib, n, now, ops);
    if b.compression == Plain {
      Received(lib, b, b.spans);
    } else if p.count == 0 && b.spans != [] {
      NeverCompressedIsRefused(lib, b);
    } else {
      if p.count > 0 {
        UnpacksFirst(lib, b, p);
      }
      FitsPrefix(b.spans, p.count);
      Received(lib, b, b.spans[..p.count]);
    }
  }

  lemma FitsPrefix(spans: seq<Span>, p: nat)
    requires AllWellTyped(spans) && AllFit(spans) && p <= |spans|
    ensures AllWellTyped(spans[..p]) && AllFit(spans[..p])
  {
    hide WellTyped, Fits;
  }

  /** After any run that leaves stored data, if any, of the bundle's own type, the receiver gets the bundle back if and
      only if it has no compressed type, or compression last succeeded after the last span was added. */
  lemma RoundTripIff(lib: Library, n: u64, now: i64, ops: seq<Op>)
    requires Lossless(lib) && Marked(lib)
    requires var b := Run(lib, New(n, now), ops);
      AllWellTyped(b.spans) && AllFit(b.spans) && |Payload(b)| < 0x1_0000_0000
    requires var b, p := Run(lib, New(n, now), ops), PackingOf(lib, New(n, now), ops);
      p.count == 0 || p.kind == b.compression
    ensures var b, p := Run(lib, New(n, now), ops), PackingOf(lib, New(n, now), ops);
      ReadBundle(lib, BundleWire(b)) == Read(b.(compressed := None)) <==>
      b.compression == Plain || p.count == |b.spans|
  {
    hide ReadBundle, BundleWire, AllWellTyped, AllFit, Run, PackingOf, Lossless, Marked;
    Delivered(lib, n, now, ops);
    PackingIs(lib, n, now, ops);
    var b, p := Run(lib, New(n, now), ops), PackingOf(lib, New(n, now), ops);
    assert b.spans[..p.count] == b.spans <==> p.count == |b.spans|;
  }

  /** Packed data starts with a byte of at least 0x1F and has at least four bytes, and only its own type unpacks it: a
      gzip member starts with 0x1F, a Zstandard frame with 0x28. */
  ghost predicate Framed(lib: Library) {
    && (forall k, level, raw :: lib.pack(k, level, raw).Some? ==>
          |lib.pack(k, level, raw).value| >= 4 && lib.pack(k, level, raw).value[0] >= 0x1F)
    && (forall k, j, level, raw :: k != j && j != Plain && lib.pack(k, level, raw).Some? ==>
          lib.unpack(j, lib.pack(k, level, raw).value).None?)
  }

  lemma LargeLength(data: seq<byte>)
    requires |data| >= 4 && data[0] >= 0x1F
    ensures FromBe(data[..4]) >= 0x1F00_0000
  {
    assert data[..4][..3] == data[..3] && data[..3][..2] == data[..2] && data[..2][..1] == data[..1] &&
      data[..1][..0] == [];
    assert FromBe(data[..1]) == data[0];
    assert FromBe(data[..2]) >= 0x1F00;
    assert FromBe(data[..3]) >= 0x1F_0000;
  }

  /** Data packed under another type than the bundle's own is refused, read as packed or as plain spans. */
  lemma MismatchIsRefused(lib: Library, b: Bundle, p: Packing)
    requires Framed(lib) && Holding(lib, b, p) && p.count > 0 && p.kind != b.compression
    requires |Payload(b)| < 0x1F00_0000
    ensures ReadBundle(lib, BundleWire(b)) == Failed(if b.compression == Plain then ShortSpanData else Unpackable)
  {
    hide ReadBundle, BundleWire, Raw;
    FlagAndPayload(lib, b);
    var raw := Raw(b.spans[..p.count]);
    var level :| b.compressed == lib.pack(p.kind, level, raw);
    if b.compression == Plain {
      LargeLength(b.compressed.value);
    }
  }

  /** Over every run of operations, the receiver gets the bundle back if and only if the stored data covers all spans
      and is of the bundle's type, or nothing is stored and the bundle has no compressed type or no spans. */
  lemma RoundTripAnyRun(lib: Library, n: u64, now: i64, ops: seq<Op>)
    requires Lossless(lib) && Marked(lib) && Framed(lib)
    requires var b := Run(lib, New(n, now), ops);
      AllWellTyped(b.spans) && AllFit(b.spans) && |Payload(b)| < 0x1F00_0000
    ensures var b, p := Run(lib, New(n, now), ops), PackingOf(lib, New(n, now), ops);
      ReadBundle(lib, BundleWire(b)) == Read(b.(compressed := None)) <==>
      if p.count == 0 then b.compression == Plain || b.spans == [] else p.kind == b.compression && p.count == |b.spans|
  {
    hide ReadBundle, BundleWire, AllWellTyped, AllFit, Run, PackingOf, Lossless, Marked, Framed;
    PackingIs(lib, n, now, ops);
    var b, p := Run(lib, New(n, now), ops), PackingOf(lib, New(n, now), ops);
    if p.count == 0 || p.kind == b.compression {
      RoundTripIff(lib, n, now, ops);
    } else {
      MismatchIsRefused(lib, b, p);
    }
  }
}
