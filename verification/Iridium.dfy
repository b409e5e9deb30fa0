/** Iridium SBD packets (src/iridium_sbd.rs): protocol byte, length, payload, optional CRC-16. */
module Iridium {
  import opened Bytes
  import Crc

  /** The payload is a fixed block of 340 bytes of which the first `length` are used. */
  datatype Packet = Packet(protocol: byte, length: nat, payload: seq<byte>, checksum: bv16)

  ghost predicate WellFormed(p: Packet) {
    p.length <= 340 && |p.payload| == 340
  }

  function DeclaredLength(data: seq<byte>): nat
    requires |data| >= 3
  {
    FromBe(data[1..3])
  }

  /** The packets the parser takes: header and payload present, payload of at most 340 bytes. */
  predicate Parsable(data: seq<byte>) {
    |data| >= 3 && |data| >= 3 + DeclaredLength(data) && DeclaredLength(data) <= 340
  }

  /** The trailing checksum, or zero when the packet ends with its payload. */
  function StoredChecksum(data: seq<byte>): bv16
    requires Parsable(data)
  {
    var n := DeclaredLength(data);
    if |data| >= 3 + n + 2 then Crc.Word(data[3 + n], data[3 + n + 1]) else 0
  }

  /** What parsing yields. */
  function Parsed(data: seq<byte>): Option<Packet> {
    if !Parsable(data) then None
    else
      var n := DeclaredLength(data);
      Some(Packet(data[0], n, data[3..3 + n] + seq(340 - n, _ => 0), StoredChecksum(data)))
  }

  method Parse(data: seq<byte>) returns (r: Option<Packet>)
    ensures r == Parsed(data)
    ensures r.Some? <==> Parsable(data)
    ensures r.Some? ==> WellFormed(r.value) && r.value.payload[..r.value.length] == data[3..3 + r.value.length]
  {
    if |data| < 3 {
      return None;
    }
    var length := FromBe(data[1..3]);
    if |data| < 3 + length || length > 340 {
      return None;
    }
    var payload := new byte[340](_ => 0);
    for i := 0 to length
      invariant payload[..i] == data[3..3 + i]
      invariant forall k :: i <= k < 340 ==> payload[k] == 0
    {
      payload[i] := data[3 + i];
    }
    assert payload[..] == data[3..3 + length] + seq(340 - length, _ => 0);
    r := Some(Packet(data[0], length, payload[..], StoredChecksum(data)));
  }

  /** The bytes the checksum speaks of, in one piece. */
  function Covered(p: Packet): seq<byte>
    requires WellFormed(p)
  {
    [p.protocol] + ToBe(2, p.length) + p.payload[..p.length]
  }

  /** The CRC over the header, carried on over the payload. */
  method ComputeCrc(p: Packet) returns (crc: bv16)
    requires WellFormed(p)
    ensures crc == Crc.Crc(Crc.INIT, Covered(p))
  {
    var header := [p.protocol] + ToBe(2, p.length);
    crc := Crc.Continue(Crc.INIT, header);
    crc := Crc.Continue(crc, p.payload[..p.length]);
    Crc.Chained(Crc.INIT, header, p.payload[..p.length]);
  }

  predicate ChecksumValid(p: Packet)
    requires WellFormed(p)
  {
    Crc.Crc(Crc.INIT, Covered(p)) == p.checksum
  }

  method ValidateChecksum(p: Packet) returns (valid: bool)
    requires WellFormed(p)
    ensures valid == ChecksumValid(p)
  {
    var crc := ComputeCrc(p);
    valid := crc == p.checksum;
  }

  /** The packet up to and including its checksum, if it has one. */
  function Whole(data: seq<byte>): seq<byte>
    requires Parsable(data)
  {
    var n := 3 + DeclaredLength(data);
    if |data| >= n + 2 then data[..n + 2] else data[..n]
  }

  lemma CoveredIs(data: seq<byte>)
    requires Parsable(data)
    ensures var p := Parsed(data).value; WellFormed(p) && Covered(p) == data[..3 + p.length]
  {
    hide ToBe, FromBe, StoredChecksum;
    var p := Parsed(data).value;
    var n := 3 + p.length;
    ToFromBe(data[1..3]);
    Split(data[3..n], seq(340 - p.length, _ => 0));
    HeaderParts(data, n);
  }

  lemma HeaderParts(data: seq<byte>, n: nat)
    requires 3 <= n <= |data|
    ensures data[..n] == [data[0]] + data[1..3] + data[3..n]
  {
  }

  /** Parsing then checking accepts exactly the packets whose bytes leave a zero residue: the checksum is covered when
      it is there, and a packet that ends with its payload needs a residue of zero by itself. */
  lemma ValidIffZeroResidue(data: seq<byte>)
    requires Parsable(data)
    ensures WellFormed(Parsed(data).value)
    ensures ChecksumValid(Parsed(data).value) <==> Crc.Crc(Crc.INIT, Whole(data)) == 0
  {
    hide ToBe, FromBe, Crc.Crc, Covered;
    CoveredIs(data);
    var n := 3 + DeclaredLength(data);
    if |data| >= n + 2 {
      Crc.ResidueIsChecksum(Crc.INIT, data[..n], data[n], data[n + 1]);
      assert data[..n + 2] == data[..n] + [data[n], data[n + 1]];
    }
  }

  /** The parser as its documentation has it: no packet with an invalid checksum. */
  function Documented(data: seq<byte>): Option<Packet> {
    if !Parsable(data) then None
    else
      CoveredIs(data);
      if ChecksumValid(Parsed(data).value) then Parsed(data) else None
  }

  /** The parser does what its documentation says exactly on data that is no packet and on packets of residue zero. */
  lemma ParseAsDocumentedIff(data: seq<byte>)
    ensures Parsed(data) == Documented(data) <==> !Parsable(data) || Crc.Crc(Crc.INIT, Whole(data)) == 0
  {
    hide ChecksumValid, Whole;
    if Parsable(data) {
      ValidIffZeroResidue(data);
    }
  }

  /** With a checksum in place, exactly one of its 65536 values makes the parser agree with its documentation. */
  lemma OneChecksumAgrees(data: seq<byte>, hi: byte, lo: byte)
    requires Parsable(data) && |data| == 3 + DeclaredLength(data)
    ensures Parsable(data + [hi, lo])
    ensures var c := Crc.Crc(Crc.INIT, data);
      Parsed(data + [hi, lo]) == Documented(data + [hi, lo]) <==> hi == Crc.HighByte(c) && lo == Crc.LowByte(c)
  {
    hide Crc.Crc, Documented, Parsed, FromBe, Crc.Word, Crc.HighByte, Crc.LowByte;
    var packet := data + [hi, lo];
    assert packet[1..3] == data[1..3];
    ParseAsDocumentedIff(packet);
    assert Whole(packet) == packet;
    Crc.ResidueIsChecksum(Crc.INIT, data, hi, lo);
    Crc.SpellsWord(Crc.Crc(Crc.INIT, data), hi, lo);
  }

  /** Five zero bytes are parsed as an empty packet although their checksum is wrong. */
  lemma WrongChecksumParsed()
    ensures var data: seq<byte> := [0, 0, 0, 0, 0]; Parsed(data).Some? && Documented(data).None?
  {
    var header: seq<byte> := [0, 0, 0];
    assert header[1..3] == [0, 0] && FromBe([0, 0]) == 0 by {
      assert [0, 0][..1] == [0] && [0][..0] == [];
    }
    assert header + [0, 0] == [0, 0, 0, 0, 0];
    hide Crc.Crc, Crc.Word, Crc.HighByte, Crc.LowByte, Documented, FromBe;
    OneChecksumAgrees(header, 0, 0);
    Crc.SpellsWord(Crc.Crc(Crc.INIT, header), 0, 0);
    Crc.ZeroDataKeepsZero(3);
    assert header == seq(3, _ => 0);
    if Crc.Crc(Crc.INIT, header) == 0 {
      Crc.CrcInjective(Crc.INIT, 0, header);
    }
    Crc.ZeroWord();
  }
}
