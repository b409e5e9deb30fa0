/** Inmarsat C frames (src/inmarsat_c.rs): magic, number, two identifiers, payload, CRC-16. */
module Inmarsat {
  import opened Bytes
  import Crc
  import Hex
  import Period

  const MAGIC: seq<byte> := [0x49, 0x4E, 0x4D, 0x01]

  datatype Frame = Frame(number: int, destination: seq<byte>, source: seq<byte>, payload: seq<byte>)

  datatype ParseError =
    | InvalidLength(found: nat)
    | InvalidMagicNumber(found: nat)
    | ChecksumMismatch(computed: bv16, stored: bv16)
    | InvalidDestinationId(value: seq<byte>)
    | InvalidSourceId(value: seq<byte>)

  datatype Parsed = Ok(frame: Frame) | Err(error: ParseError)

  function ParseInner(data: seq<byte>): Parsed
    requires |data| >= 14
  {
    var destination := Hex.Encode(data[6..10]);
    var source := Hex.Encode(data[10..14]);
    if Hex.Decode(destination).None? then Err(InvalidDestinationId(destination))
    else if Hex.Decode(source).None? then Err(InvalidSourceId(source))
    else Ok(Frame(FromBe(data[4..6]), destination, source, data[14..]))
  }

  function Parse(data: seq<byte>): Parsed {
    if |data| < 16 then Err(InvalidLength(|data|))
    else if data[..4] != MAGIC then Err(InvalidMagicNumber(FromBe(data[..4])))
    else
      var n := |data| - 2;
      var computed := Crc.Crc(Crc.INIT, data[..n]);
      var stored := Crc.Word(data[n], data[n + 1]);
      if computed != stored then Err(ChecksumMismatch(computed, stored)) else ParseInner(data[..n])
  }

  /** An identifier that encoding can copy into its four bytes: not hexadecimal at all, or at least four bytes of it. */
  predicate Copyable(id: seq<byte>) {
    var b := Hex.Decode(id);
    b.Some? ==> |b.value| >= 4
  }

  function IdBytes(id: seq<byte>): (s: seq<byte>)
    requires Copyable(id)
    ensures |s| == 4
  {
    match Hex.Decode(id)
    case None => [0, 0, 0, 0]
    case Some(b) => b[..4]
  }

  predicate Encodable(f: Frame) {
    0 <= f.number < 0x1_0000 && Copyable(f.destination) && Copyable(f.source)
  }

  function Body(f: Frame): (s: seq<byte>)
    requires Encodable(f)
    ensures |s| == 14 + Min(|f.payload|, 114)
  {
    MAGIC + ToBe(2, f.number) + IdBytes(f.destination) + IdBytes(f.source) + f.payload[..Min(|f.payload|, 114)]
  }

  /** Data with its checksum appended. */
  function Seal(data: seq<byte>): (s: seq<byte>)
    ensures |s| == |data| + 2
  {
    var c := Crc.Crc(Crc.INIT, data);
    data + [Crc.HighByte(c), Crc.LowByte(c)]
  }

  /** What the encoder emits. */
  function Wire(f: Frame): (s: seq<byte>)
    requires Encodable(f)
    ensures |s| == 16 + Min(|f.payload|, 114)
  {
    Seal(Body(f))
  }

  /** Copies src over buffer[at..] (`copy_from_slice`). */
  method CopyInto(buffer: array<byte>, at: nat, src: seq<byte>)
    requires at + |src| <= buffer.Length
    modifies buffer
    ensures buffer[..] == old(buffer[..at]) + src + old(buffer[at + |src|..])
  {
    for i := 0 to |src|
      invariant buffer[..] == old(buffer[..at]) + src[..i] + old(buffer[at + i..])
    {
      buffer[at + i] := src[i];
    }
  }

  /** The result of encoding; None is the panic of copying an id of fewer than four bytes. */
  function Encoded(f: Frame): Option<seq<byte>> {
    if Encodable(f) then Some(Wire(f)) else None
  }

  /** The encoder: the header and payload are written over a 128-byte buffer, which is then cut to length. */
  method Encode(f: Frame) returns (out: Option<seq<byte>>)
    requires 0 <= f.number < 0x1_0000
    ensures out == Encoded(f)
  {
    hide Crc.Crc, ToBe, Hex.Decode, Crc.HighByte, Crc.LowByte;
    var buffer := new byte[128](_ => 0);
    var n := Min(|f.payload|, 114);
    CopyInto(buffer, 0, MAGIC);
    CopyInto(buffer, 4, ToBe(2, f.number));
    if !Copyable(f.destination) {
      return None;
    }
    CopyInto(buffer, 6, IdBytes(f.destination));
    if !Copyable(f.source) {
      return None;
    }
    assert buffer[..10] == MAGIC + ToBe(2, f.number) + IdBytes(f.destination);
    CopyInto(buffer, 10, IdBytes(f.source));
    assert buffer[..14] == MAGIC + ToBe(2, f.number) + IdBytes(f.destination) + IdBytes(f.source);
    CopyInto(buffer, 14, f.payload[..n]);
    var data := buffer[..14 + n];
    assert data == Body(f);
    var c := Crc.Continue(Crc.INIT, data);
    return Some(data + [Crc.HighByte(c), Crc.LowByte(c)]);
  }

  // ---- What is accepted ----

  /** A zero residue says exactly that the last two bytes are the checksum of the others. */
  lemma ZeroResidueIsSealed(data: seq<byte>)
    requires |data| >= 2
    ensures Crc.Crc(Crc.INIT, data) == 0 <==> data == Seal(data[..|data| - 2])
  {
    var n := |data| - 2;
    var c := Crc.Crc(Crc.INIT, data[..n]);
    var hi, lo := data[n], data[n + 1];
    LastTwo(data, n);
    Crc.ResidueIsChecksum(Crc.INIT, data[..n], hi, lo);
    Crc.SpellsWord(c, hi, lo);
    LastTwoEqual(data[..n], hi, lo, Crc.HighByte(c), Crc.LowByte(c));
  }

  lemma LastTwo(data: seq<byte>, n: nat)
    requires |data| == n + 2
    ensures data == data[..n] + [data[n], data[n + 1]]
  {
  }

  lemma LastTwoEqual(s: seq<byte>, a: byte, b: byte, x: byte, y: byte)
    ensures s + [a, b] == s + [x, y] <==> a == x && b == y
  {
    assert (s + [a, b])[|s|] == a && (s + [a, b])[|s| + 1] == b;
    assert (s + [x, y])[|s|] == x && (s + [x, y])[|s| + 1] == y;
  }

  /** A frame is accepted exactly when it is long enough, starts with the magic number and leaves a zero residue. */
  lemma AcceptedIffZeroResidue(data: seq<byte>)
    ensures Parse(data).Ok? <==> |data| >= 16 && data[..4] == MAGIC && Crc.Crc(Crc.INIT, data) == 0
  {
    hide Crc.Crc, Crc.Word, Hex.Encode, Hex.Decode, Hex.LowerHex, FromBe;
    if |data| >= 16 {
      var n := |data| - 2;
      Crc.ResidueIsChecksum(Crc.INIT, data[..n], data[n], data[n + 1]);
      LastTwo(data, n);
      Hex.DecodeEncode(data[..n][6..10]);
      Hex.DecodeEncode(data[..n][10..14]);
    }
  }

  /** Two accepted frames of one length that differ only inside sixteen consecutive bits are equal. */
  lemma BurstRejected(d: seq<byte>, e: seq<byte>, p: nat)
    requires Parse(d).Ok? && Parse(e).Ok?
    requires |d| == |e| && p <= 8 * |d|
    requires forall i :: 0 <= i < 8 * |d| && !(p <= i < p + 16) ==> Crc.Bits(d)[i] == Crc.Bits(e)[i]
    ensures d == e
  {
    AcceptedIffZeroResidue(d);
    AcceptedIffZeroResidue(e);
    Crc.BurstDetected(d, e, p);
  }

  lemma {:induction false} BitsAgree(d: seq<byte>, e: seq<byte>, i: nat)
    requires |d| == |e| && i < 8 * |d| && d[i / 8] == e[i / 8]
    ensures Crc.Bits(d)[i] == Crc.Bits(e)[i]
  {
    var k := |d| - 1;
    if i < 8 * k {
      BitsAgree(d[..k], e[..k], i);
    } else {
      assert i / 8 == k;
    }
  }

  /** In particular, no two distinct accepted frames differ in just two adjacent bytes, wherever they lie. */
  lemma AdjacentBytesRejected(d: seq<byte>, e: seq<byte>, j: nat)
    requires Parse(d).Ok? && Parse(e).Ok? && |d| == |e| && j < |d|
    requires forall i :: 0 <= i < |d| && i != j && i != j + 1 ==> d[i] == e[i]
    ensures d == e
  {
    forall i | 0 <= i < 8 * |d| && !(8 * j <= i < 8 * j + 16)
      ensures Crc.Bits(d)[i] == Crc.Bits(e)[i]
    {
      assert i / 8 != j && i / 8 != j + 1;
      BitsAgree(d, e, i);
    }
    BurstRejected(d, e, 8 * j);
  }

  /** Accepted frames of one length differ in an even number of bits. */
  lemma OddErrorRejected(d: seq<byte>, e: seq<byte>)
    requires Parse(d).Ok? && Parse(e).Ok? && |d| == |e|
    ensures !Crc.OddWeight(Crc.Diff(Crc.Bits(d), Crc.Bits(e)))
  {
    AcceptedIffZeroResidue(d);
    AcceptedIffZeroResidue(e);
    Crc.OddErrorDetected(d, e);
  }

  /** No two distinct accepted frames of one length, up to 4095 bytes, differ in at most three bits. */
  lemma ThreeBitErrorRejected(d: seq<byte>, e: seq<byte>, i: nat, j: nat, k: nat)
    requires Parse(d).Ok? && Parse(e).Ok? && |d| == |e| <= 4095 && i < j < k < 8 * |d|
    requires forall n :: 0 <= n < 8 * |d| && n != i && n != j && n != k ==> Crc.Bits(d)[n] == Crc.Bits(e)[n]
    ensures d == e
  {
    hide Crc.Crc, Crc.Bits;
    AcceptedIffZeroResidue(d);
    AcceptedIffZeroResidue(e);
    Period.ThreeBitErrorDetected(d, e, i, j, k);
  }

  // ---- Round trips ----

  lemma ParsedFields(data: seq<byte>)
    requires Parse(data).Ok?
    ensures |data| >= 16
    ensures Parse(data).frame ==
      Frame(FromBe(data[4..6]), Hex.Encode(data[6..10]), Hex.Encode(data[10..14]), data[14..|data| - 2])
  {
    var inner := data[..|data| - 2];
    assert inner[4..6] == data[4..6] && inner[6..10] == data[6..10];
    assert inner[10..14] == data[10..14] && inner[14..] == data[14..|data| - 2];
  }

  lemma WireSlices(f: Frame)
    requires Encodable(f)
    ensures var w := Wire(f); w[..|w| - 2] == Body(f) && w[..4] == MAGIC && w[4..6] == ToBe(2, f.number)
    ensures var w := Wire(f); w[6..10] == IdBytes(f.destination) && w[10..14] == IdBytes(f.source)
    ensures var w := Wire(f); w[14..|w| - 2] == f.payload[..Min(|f.payload|, 114)]
  {
    hide IdBytes, ToBe, Crc.Crc, Crc.HighByte, Crc.LowByte;
    var body := Body(f);
    var c := Crc.Crc(Crc.INIT, body);
    Slices(MAGIC, ToBe(2, f.number), IdBytes(f.destination), IdBytes(f.source), f.payload[..Min(|f.payload|, 114)],
      [Crc.HighByte(c), Crc.LowByte(c)]);
  }

  lemma Slices(a: seq<byte>, b: seq<byte>, c: seq<byte>, d: seq<byte>, e: seq<byte>, t: seq<byte>)
    requires |a| == 4 && |b| == 2 && |c| == 4 && |d| == 4
    ensures var w := a + b + c + d + e + t;
      && w[..14 + |e|] == a + b + c + d + e && w[..4] == a && w[4..6] == b && w[6..10] == c && w[10..14] == d
      && w[14..14 + |e|] == e
  {
  }

  lemma WireParts(f: Frame)
    requires Encodable(f)
    ensures Parse(Wire(f)).Ok?
    ensures Parse(Wire(f)).frame ==
      Frame(f.number, Hex.Encode(IdBytes(f.destination)), Hex.Encode(IdBytes(f.source)),
        f.payload[..Min(|f.payload|, 114)])
  {
    var w := Wire(f);
    WireSlices(f);
    ZeroResidueIsSealed(w);
    AcceptedIffZeroResidue(w);
    ParsedFields(w);
    RadixOfEight();
    FromToBe(2, f.number);
  }

  /** What an identifier becomes on its way: its first eight digits in lower case, or eight zeros if it is not
      hexadecimal text. */
  lemma IdOnTheWay(id: seq<byte>)
    requires Copyable(id)
    ensures Hex.Encode(IdBytes(id)) ==
      if |id| % 2 == 0 && Hex.AllHex(id)
      then Hex.LowerOf(id)[..Min(8, |id|)] else seq(8, _ => '0' as int)
  {
    hide Hex.Decode, Hex.Encode, Hex.LowerOf, Hex.AllHex;
    Hex.DecodeIff(id);
    if Hex.Decode(id).Some? {
      Hex.EncodePrefix(Hex.Decode(id).value, 4);
    } else {
      ZeroText();
    }
  }

  lemma ZeroText()
    ensures Hex.Encode([0, 0, 0, 0]) == seq(8, _ => '0' as int)
  {
    var z: seq<byte> := [0, 0, 0, 0];
    assert z[1..] == [0, 0, 0] && z[1..][1..] == [0, 0] && z[1..][1..][1..] == [0];
    assert Hex.Encode([0]) == [0x30, 0x30] && Hex.Encode([0, 0]) == [0x30, 0x30, 0x30, 0x30];
    assert Hex.Encode([0, 0, 0]) == [0x30, 0x30, 0x30, 0x30, 0x30, 0x30];
  }

  /** Eight lower-case digits: the only identifiers that survive a round trip. */
  predicate CanonicalId(id: seq<byte>) {
    |id| == 8 && Hex.LowerHex(id)
  }

  lemma CanonicalIdRoundTrip(id: seq<byte>)
    requires Copyable(id)
    ensures Hex.Encode(IdBytes(id)) == id <==> CanonicalId(id)
  {
    Hex.DecodeEncode(IdBytes(id));
    if CanonicalId(id) {
      Hex.EncodeDecode(id);
      assert IdBytes(id) == Hex.Decode(id).value;
    }
  }

  /** Encoding does not panic and parsing its result gives the message back, exactly for canonical identifiers and
      payloads of at most 114 bytes. */
  lemma ParseEncode(f: Frame)
    requires 0 <= f.number < 0x1_0000
    ensures Encoded(f).Some? && Parse(Encoded(f).value) == Ok(f) <==>
            CanonicalId(f.destination) && CanonicalId(f.source) && |f.payload| <= 114
  {
    hide Parse, Wire, Hex.Decode, Hex.Encode, Hex.LowerHex, IdBytes;
    CanonicalCopyable(f.destination);
    CanonicalCopyable(f.source);
    if Encodable(f) {
      WireParts(f);
      CanonicalIdRoundTrip(f.destination);
      CanonicalIdRoundTrip(f.source);
      if |f.payload| <= 114 {
        assert f.payload[..|f.payload|] == f.payload;
      }
    }
  }

  lemma CanonicalCopyable(id: seq<byte>)
    ensures CanonicalId(id) ==> Copyable(id)
  {
    if CanonicalId(id) {
      Hex.EncodeDecode(id);
    }
  }

  lemma ParsedEncodable(data: seq<byte>)
    requires Parse(data).Ok?
    ensures Encodable(Parse(data).frame)
    ensures var f := Parse(data).frame; IdBytes(f.destination) == data[6..10] && IdBytes(f.source) == data[10..14]
  {
    ParsedFields(data);
    hide Parse, Hex.Decode, Hex.Encode, FromBe;
    RadixOfEight();
    Hex.DecodeEncode(data[6..10]);
    Hex.DecodeEncode(data[10..14]);
    assert data[6..10][..4] == data[6..10] && data[10..14][..4] == data[10..14];
  }

  lemma FiveParts(data: seq<byte>, n: nat)
    requires 14 <= n <= |data|
    ensures data[..n] == data[..4] + data[4..6] + data[6..10] + data[10..14] + data[14..n]
  {
  }

  /** Why a frame is refused: its length, its first four bytes, or its checksum, in that order. The two errors about ids
      never occur, since the ids that are checked have just been written as hexadecimal text. */
  lemma RefusedFor(data: seq<byte>)
    requires Parse(data).Err?
    ensures Parse(data).error ==
      if |data| < 16 then InvalidLength(|data|)
      else if data[..4] != [0x49, 0x4E, 0x4D, 0x01] then InvalidMagicNumber(
        0x100_0000 * data[0] as int + 0x1_0000 * data[1] as int + 0x100 * data[2] as int + data[3])
      else ChecksumMismatch(Crc.Crc(Crc.INIT, data[..|data| - 2]), Crc.Word(data[|data| - 2], data[|data| - 1]))
  {
    hide Crc.Crc, Crc.Word, Hex.Encode, Hex.Decode, FromBe;
    if |data| >= 16 {
      FourDigits(data[..4]);
      var inner := data[..|data| - 2];
      Hex.DecodeEncode(inner[6..10]);
      Hex.DecodeEncode(inner[10..14]);
    }
  }

  /** Parsing an accepted frame and encoding it again gives the same bytes exactly when it has at most 130 of them; a
      longer one is cut after 128 bytes and sealed anew. */
  lemma EncodeParse(data: seq<byte>)
    requires Parse(data).Ok?
    ensures Encodable(Parse(data).frame)
    ensures Wire(Parse(data).frame) == data <==> |data| <= 130
    ensures |data| > 130 ==> Wire(Parse(data).frame) == Seal(data[..128])
  {
    ParsedFields(data);
    ParsedEncodable(data);
    AcceptedIffZeroResidue(data);
    hide Parse, Hex.Encode, IdBytes, Crc.Crc, ToBe, FromBe, Crc.HighByte, Crc.LowByte;
    var f := Parse(data).frame;
    ToFromBe(data[4..6]);
    var n := 14 + Min(|data| - 16, 114);
    FiveParts(data, n);
    assert f.payload[..n - 14] == data[14..n];
    assert Body(f) == data[..n];
    ZeroResidueIsSealed(data);
  }
}
