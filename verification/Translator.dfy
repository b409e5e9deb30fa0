/** Translation of legacy payloads to the cellular format (src/translator.rs). Compression is a parameter. */
module Translator {
  import opened Bytes
  import opened Protocols
  import Crc
  import HfVhf
  import Inmarsat
  import Iridium
  import Utf8

  type Compressor = seq<byte> -> seq<byte>

  function DecodeIridium(data: seq<byte>): Option<seq<byte>> {
    if |data| < 3 then None
    else
      var length := FromBe(data[1..3]);
      if length > 340 || |data| < 3 + length then None else Some([data[0]] + data[3..3 + length])
  }

  function DecodeInmarsat(data: seq<byte>): Option<seq<byte>> {
    match Inmarsat.Parse(data)
    case Err(_) => None
    case Ok(f) => Inmarsat.EncodeParse(data); Some(Inmarsat.Wire(f))
  }

  /** A VSAT packet, parsed into its fields and written back before compression. */
  function RewriteVsat(data: seq<byte>): seq<byte>
    requires |data| >= 16
  {
    ToBe(4, FromBe(data[..4])) + data[4..8] + data[8..12] + data[12..]
  }

  function DecodeVsat(zstd: Compressor, data: seq<byte>): Option<seq<byte>> {
    if |data| < 16 then None else Some(zstd(RewriteVsat(data)))
  }

  function DecodeHfVhf(data: seq<byte>): Option<seq<byte>> {
    match HfVhf.Decoded(data)
    case None => None
    case Some(a) => Some(HfVhf.Encoded(a))
  }

  /** Version, device id with a two-byte length, timestamp, latitude, longitude, payload with a four-byte length. */
  function DecodeSamsara(data: seq<byte>): Option<seq<byte>> {
    if |data| < 3 || data[0] != 1 then None
    else
      var n := FromBe(data[1..3]);
      if n > 1024 || |data| < 3 + n + 28 then None
      else
        var device := data[3..3 + n];
        var size := FromBe(data[3 + n + 24..3 + n + 28]);
        if !Utf8.Scan(device).Valid? || |data| < 3 + n + 28 + size then None
        else Some([0x07] + device + data[3 + n..3 + n + 24] + data[3 + n + 28..3 + n + 28 + size])
  }

  /** The translated payload: a function of protocol and payload alone. */
  function TranslateData(zstd: Compressor, p: Protocol, data: seq<byte>): Option<seq<byte>> {
    match p
    case IridiumSBD => DecodeIridium(data)
    case InmarsatC => DecodeInmarsat(data)
    case VSAT => DecodeVsat(zstd, data)
    case HFVHF => DecodeHfVhf(data)
    case RockBLOCK => DecodeIridium(data)
    case Samsara => DecodeSamsara(data)
    case NIDD => Some(data)
    case ASTSpaceMobile => Some(data)
    case LoRaMesh => Some(data)
  }

  /** `translate_sync`: None stands for a translation error. */
  function TranslateSync(zstd: Compressor, m: Message, now: u64): (r: Option<Message>)
  {
    match TranslateData(zstd, m.protocol, m.data)
    case None => None
    case Some(data) =>
      Some(NewMessage(ASTSpaceMobile, data, m.priority, now).(tEvent := m.tEvent, tSystem := m.tSystem))
  }

  // ---- What each protocol is translated to, in terms of the bytes that came in ----

  /** The message that carries translated data: cellular, cut to its maximum size, stamped now, and otherwise with the
      priority and the two times of the message it comes from. */
  function Carried(m: Message, data: seq<byte>, now: u64): Message {
    Message(ASTSpaceMobile, data[..Min(|data|, 120_000_000)], m.priority, now, m.tEvent, m.tSystem)
  }

  lemma SyncIs(zstd: Compressor, m: Message, now: u64)
    ensures TranslateSync(zstd, m, now) ==
      match TranslateData(zstd, m.protocol, m.data) case None => None case Some(data) => Some(Carried(m, data, now))
  {
    hide TranslateData;
    var data := TranslateData(zstd, m.protocol, m.data);
    assert data.Some? ==> data.value[..|data.value|] == data.value;
  }

  /** Iridium and RockBLOCK: the protocol byte and the payload, exactly when a payload of the declared length, at most
      340, is there. The packets taken are those the Iridium parser takes; the checksum plays no part. */
  lemma IridiumTranslation(zstd: Compressor, m: Message, now: u64)
    requires m.protocol == IridiumSBD || m.protocol == RockBLOCK
    ensures var d := m.data;
      var n: int := if |d| >= 3 then 256 * d[1] as int + d[2] else 0;
      TranslateSync(zstd, m, now) ==
      if |d| >= 3 && n <= 340 && |d| >= 3 + n then Some(Carried(m, [d[0]] + d[3..3 + n], now)) else None
    ensures TranslateSync(zstd, m, now).Some? <==> Iridium.Parsable(m.data)
  {
    hide FromBe;
    SyncIs(zstd, m, now);
    if |m.data| >= 3 {
      TwoDigits(m.data[1..3]);
    }
  }

  /** VSAT: the packet, rewritten field by field without change, compressed; exactly when it has sixteen bytes. */
  lemma VsatTranslation(zstd: Compressor, m: Message, now: u64)
    requires m.protocol == VSAT
    ensures TranslateSync(zstd, m, now) == if |m.data| >= 16 then Some(Carried(m, zstd(m.data), now)) else None
  {
    SyncIs(zstd, m, now);
    if |m.data| >= 16 {
      ToFromBe(m.data[..4]);
      assert RewriteVsat(m.data) == m.data;
    }
  }

  /** Inmarsat C: exactly the frames of sixteen bytes or more with the right first four and a zero residue; the same
      bytes up to 130, and beyond that the first 128 under a checksum of their own. */
  lemma InmarsatTranslation(zstd: Compressor, m: Message, now: u64)
    requires m.protocol == InmarsatC
    ensures var d := m.data;
      TranslateSync(zstd, m, now) ==
      if |d| >= 16 && d[..4] == [0x49, 0x4E, 0x4D, 0x01] && Crc.Crc(Crc.INIT, d) == 0
      then Some(Carried(m, if |d| <= 130 then d else Inmarsat.Seal(d[..128]), now)) else None
  {
    hide Crc.Crc, Inmarsat.Parse, Inmarsat.Wire, Inmarsat.Seal;
    SyncIs(zstd, m, now);
    Inmarsat.AcceptedIffZeroResidue(m.data);
    if Inmarsat.Parse(m.data).Ok? {
      Inmarsat.EncodeParse(m.data);
    }
  }

  /** HF/VHF: the frame less one odd trailing byte, exactly when it has eight bytes and a known modulation. */
  lemma HfVhfTranslation(zstd: Compressor, m: Message, now: u64)
    requires m.protocol == HFVHF
    ensures var d := m.data;
      TranslateSync(zstd, m, now) ==
      if |d| >= 8 && d[4] <= 3 then Some(Carried(m, d[..if |d| % 2 == 1 then |d| else |d| - 1], now)) else None
  {
    hide HfVhf.Encoded, HfVhf.Decoded;
    SyncIs(zstd, m, now);
    HfVhf.FieldsRead(m.data);
    if HfVhf.Decoded(m.data).Some? {
      HfVhf.EncodeParse(m.data);
    }
  }

  /** NIDD, cellular and LoRa payloads are carried as they are. */
  lemma PlainTranslation(zstd: Compressor, m: Message, now: u64)
    requires m.protocol == NIDD || m.protocol == ASTSpaceMobile || m.protocol == LoRaMesh
    ensures TranslateSync(zstd, m, now) == Some(Carried(m, m.data, now))
  {
    SyncIs(zstd, m, now);
  }

  /** Every translation of an Inmarsat C frame is itself an accepted frame, on which translation does nothing more. */
  lemma InmarsatIdempotent(data: seq<byte>)
    requires DecodeInmarsat(data).Some?
    ensures DecodeInmarsat(DecodeInmarsat(data).value) == DecodeInmarsat(data)
  {
    Inmarsat.EncodeParse(data);
    var f := Inmarsat.Parse(data).frame;
    Inmarsat.WireParts(f);
    Inmarsat.EncodeParse(Inmarsat.Wire(f));
  }

  // ---- Samsara ----

  datatype Report = Report(device: seq<byte>, fix: seq<byte>, payload: seq<byte>)

  /** A device id of at most 1024 bytes of UTF-8; timestamp, latitude and longitude in 24 bytes; a payload. */
  ghost predicate Sendable(r: Report) {
    |r.device| <= 1024 && Utf8.Scan(r.device).Valid? && |r.fix| == 24 && |r.payload| < 0x1_0000_0000
  }

  function SamsaraPacket(r: Report): seq<byte> {
    [1] + ToBe(2, |r.device|) + r.device + r.fix + ToBe(4, |r.payload|) + r.payload
  }

  lemma PacketSlices(version: seq<byte>, n: seq<byte>, r: Report, size: seq<byte>, more: seq<byte>)
    requires |version| == 1 && |n| == 2 && |size| == 4 && |r.fix| == 24
    ensures var d := version + n + r.device + r.fix + size + r.payload + more; var k := 3 + |r.device|;
      && |d| >= k + 28 + |r.payload| && d[0] == version[0] && d[1..3] == n && d[3..k] == r.device &&
        d[k..k + 24] == r.fix
      && d[k + 24..k + 28] == size && d[k + 28..k + 28 + |r.payload|] == r.payload
  {
  }

  lemma PacketDecoded(r: Report, more: seq<byte>)
    requires Sendable(r)
    ensures DecodeSamsara(SamsaraPacket(r) + more) == Some([0x07] + r.device + r.fix + r.payload)
  {
    hide ToBe, FromBe, Utf8.Scan;
    PacketSlices([1], ToBe(2, |r.device|), r, ToBe(4, |r.payload|), more);
    RadixOfEight();
    FromToBe(2, |r.device|);
    FromToBe(4, |r.payload|);
  }

  lemma DecodedPacket(data: seq<byte>) returns (r: Report)
    requires DecodeSamsara(data).Some?
    ensures Sendable(r) && IsPrefix(SamsaraPacket(r), data)
    ensures DecodeSamsara(data) == Some([0x07] + r.device + r.fix + r.payload)
  {
    hide ToBe, FromBe, Utf8.Scan;
    var n := FromBe(data[1..3]);
    var k := 3 + n;
    var size := FromBe(data[k + 24..k + 28]);
    r := Report(data[3..k], data[k..k + 24], data[k + 28..k + 28 + size]);
    ToFromBe(data[1..3]);
    ToFromBe(data[k + 24..k + 28]);
    RadixOfEight();
    assert data[..k + 28 + size] == [data[0]] + data[1..3] + data[3..k] + data[k..k + 24] + data[k + 24..k + 28] +
      data[k + 28..k + 28 + size];
    assert SamsaraPacket(r) == data[..k + 28 + size];
  }

  /** Samsara: a report, whatever follows it, is translated to its fields behind the protocol byte. */
  lemma SamsaraTranslation(zstd: Compressor, m: Message, now: u64, r: Report)
    requires m.protocol == Samsara && Sendable(r) && IsPrefix(SamsaraPacket(r), m.data)
    ensures TranslateSync(zstd, m, now) == Some(Carried(m, [0x07] + r.device + r.fix + r.payload, now))
  {
    hide DecodeSamsara, SamsaraPacket, Sendable;
    SyncIs(zstd, m, now);
    var n := |SamsaraPacket(r)|;
    assert m.data == SamsaraPacket(r) + m.data[n..];
    PacketDecoded(r, m.data[n..]);
  }

  /** Samsara: only what starts with a report is translated. */
  lemma SamsaraAccepted(zstd: Compressor, m: Message, now: u64) returns (r: Report)
    requires m.protocol == Samsara && TranslateSync(zstd, m, now).Some?
    ensures Sendable(r) && IsPrefix(SamsaraPacket(r), m.data)
  {
    hide DecodeSamsara, SamsaraPacket, Sendable;
    SyncIs(zstd, m, now);
    r := DecodedPacket(m.data);
  }
}
